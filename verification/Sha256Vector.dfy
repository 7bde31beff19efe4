// The constants of SHA-256 as roots of primes, and the digest of "abc" that FIPS 180-4 gives as an example.
module Sha256Vector {
  import opened CTypes
  import opened BlockHash
  import opened Sha256
  import opened Sha256Stream

  // ----- sections 4.2.2 and 5.3.3: the first 32 bits of the fractional parts of roots of the first primes

  predicate IsCubeRoot(n: nat, k: nat) {
    k * k * k <= n < (k + 1) * (k + 1) * (k + 1)
  }

  predicate IsSquareRoot(n: nat, k: nat) {
    k * k <= n < (k + 1) * (k + 1)
  }

  function WholeCubeRoot(prime: nat): nat {
    if prime < 8 then 1 else if prime < 27 then 2 else if prime < 64 then 3 else if prime < 125 then 4
    else if prime < 216 then 5 else 6
  }

  function WholeSquareRoot(prime: nat): nat {
    if prime < 4 then 1 else if prime < 9 then 2 else if prime < 16 then 3 else 4
  }

  // The first 64 primes in rows of eight.
  function PrimeRow(i: nat): (r: seq<nat>)
    ensures |r| == 8
  {
    match i
    case 0 => [2, 3, 5, 7, 11, 13, 17, 19]
    case 1 => [23, 29, 31, 37, 41, 43, 47, 53]
    case 2 => [59, 61, 67, 71, 73, 79, 83, 89]
    case 3 => [97, 101, 103, 107, 109, 113, 127, 131]
    case 4 => [137, 139, 149, 151, 157, 163, 167, 173]
    case 5 => [179, 181, 191, 193, 197, 199, 211, 223]
    case 6 => [227, 229, 233, 239, 241, 251, 257, 263]
    case _ => [269, 271, 277, 281, 283, 293, 307, 311]
  }

  predicate CubeRootBits(prime: nat, w: Word) {
    IsCubeRoot(prime * 0x1_0000_0000_0000_0000_0000_0000, WholeCubeRoot(prime) * 0x1_0000_0000 + w as nat)
  }

  predicate SquareRootBits(prime: nat, w: Word) {
    IsSquareRoot(prime * 0x1_0000_0000_0000_0000, WholeSquareRoot(prime) * 0x1_0000_0000 + w as nat)
  }

  // Four constants of a row.
  predicate CubeRootsFrom(i: nat, j: nat)
    requires j <= 4
  {
    var p, k := PrimeRow(i), KRow(i);
    && CubeRootBits(p[j], k[j]) && CubeRootBits(p[j + 1], k[j + 1])
    && CubeRootBits(p[j + 2], k[j + 2]) && CubeRootBits(p[j + 3], k[j + 3])
  }

  lemma CubeRoots0()
    ensures CubeRootsFrom(0, 0)
  {
  }

  lemma CubeRoots4()
    ensures CubeRootsFrom(0, 4)
  {
  }

  lemma CubeRoots8()
    ensures CubeRootsFrom(1, 0)
  {
  }

  lemma CubeRoots12()
    ensures CubeRootsFrom(1, 4)
  {
  }

  lemma CubeRoots16()
    ensures CubeRootsFrom(2, 0)
  {
  }

  lemma CubeRoots20()
    ensures CubeRootsFrom(2, 4)
  {
  }

  lemma CubeRoots24()
    ensures CubeRootsFrom(3, 0)
  {
  }

  lemma CubeRoots28()
    ensures CubeRootsFrom(3, 4)
  {
  }

  lemma CubeRoots32()
    ensures CubeRootsFrom(4, 0)
  {
  }

  lemma CubeRoots36()
    ensures CubeRootsFrom(4, 4)
  {
  }

  lemma CubeRoots40()
    ensures CubeRootsFrom(5, 0)
  {
  }

  lemma CubeRoots44()
    ensures CubeRootsFrom(5, 4)
  {
  }

  lemma CubeRoots48()
    ensures CubeRootsFrom(6, 0)
  {
  }

  lemma CubeRoots52()
    ensures CubeRootsFrom(6, 4)
  {
  }

  lemma CubeRoots56()
    ensures CubeRootsFrom(7, 0)
  {
  }

  lemma CubeRoots60()
    ensures CubeRootsFrom(7, 4)
  {
  }

  // Every constant of the rounds.
  lemma CubeRoots(i: nat, j: nat)
    requires i < 8 && j < 8
    ensures CubeRootBits(PrimeRow(i)[j], K256()[8 * i + j])
  {
    hide CubeRootBits, PrimeRow, KRow, KRows;
    KRowsAt(8, i, j);
    assert CubeRootsFrom(i, 0) && CubeRootsFrom(i, 4) by {
      hide CubeRootsFrom;
      CubeRoots0();
      CubeRoots4();
      CubeRoots8();
      CubeRoots12();
      CubeRoots16();
      CubeRoots20();
      CubeRoots24();
      CubeRoots28();
      CubeRoots32();
      CubeRoots36();
      CubeRoots40();
      CubeRoots44();
      CubeRoots48();
      CubeRoots52();
      CubeRoots56();
      CubeRoots60();
    }
  }

  // Every word of the initial state.
  lemma SquareRoots()
    ensures var v := INITIAL;
      && SquareRootBits(2, v.a)
      && SquareRootBits(3, v.b)
      && SquareRootBits(5, v.c)
      && SquareRootBits(7, v.d)
      && SquareRootBits(11, v.e)
      && SquareRootBits(13, v.f)
      && SquareRootBits(17, v.g)
      && SquareRootBits(19, v.h)
  {
  }

  // ----- the example

  const ABC: seq<Byte> := [0x61, 0x62, 0x63]

  // Its one block.
  predicate IsAbcBlock(m: Block) {
    && m[0] == 0x61 && m[1] == 0x62 && m[2] == 0x63 && m[3] == 0x80
    && (forall i :: 4 <= i < 63 ==> m[i] == 0)
    && m[63] == 0x18
  }

  // The schedule in rows of eight words.
  function WordRow(i: nat): (r: seq<Word>)
    ensures |r| == 8
  {
    match i
    case 0 => [0x61626380, 0x00000000, 0x00000000, 0x00000000, 0x00000000, 0x00000000, 0x00000000, 0x00000000]
    case 1 => [0x00000000, 0x00000000, 0x00000000, 0x00000000, 0x00000000, 0x00000000, 0x00000000, 0x00000018]
    case 2 => [0x61626380, 0x000f0000, 0x7da86405, 0x600003c6, 0x3e9d7b78, 0x0183fc00, 0x12dcbfdb, 0xe2e2c38e]
    case 3 => [0xc8215c1a, 0xb73679a2, 0xe5bc3909, 0x32663c5b, 0x9d209d67, 0xec8726cb, 0x702138a4, 0xd3b7973b]
    case 4 => [0x93f5997f, 0x3b68ba73, 0xaff4ffc1, 0xf10a5c62, 0x0a8b3996, 0x72af830a, 0x9409e33e, 0x24641522]
    case 5 => [0x9f47bf94, 0xf0a64f5a, 0x3e246a79, 0x27333ba3, 0x0c4763f2, 0x840abf27, 0x7a290d5d, 0x065c43da]
    case 6 => [0xfb3e89cb, 0xcc7617db, 0xb9e66c34, 0xa9993667, 0x84badedd, 0xc21462bc, 0x1487472c, 0xb20f7a99]
    case _ => [0xef57b9cd, 0xebe6b238, 0x9fe3095e, 0x78bc8d4b, 0xa43fcf15, 0x668b2ff8, 0xeeaba2cc, 0x12b1edeb]
  }

  predicate Scheduled(m: Block, i: nat)
    requires i < 8
  {
    forall j :: 0 <= j < 8 ==> Schedule(m, 8 * i + j) == WordRow(i)[j]
  }

  function NextWord(w2: Word, w7: Word, w15: Word, w16: Word): Word {
    Add(Add(Add(SmallSigma1(w2), w7), SmallSigma0(w15)), w16)
  }

  // Row c of the schedule follows from rows a and b.
  predicate Follows(a: seq<Word>, b: seq<Word>, c: seq<Word>)
    requires |a| == |b| == |c| == 8
  {
    && c[0] == NextWord(b[6], b[1], a[1], a[0])
    && c[1] == NextWord(b[7], b[2], a[2], a[1])
    && c[2] == NextWord(c[0], b[3], a[3], a[2])
    && c[3] == NextWord(c[1], b[4], a[4], a[3])
    && c[4] == NextWord(c[2], b[5], a[5], a[4])
    && c[5] == NextWord(c[3], b[6], a[6], a[5])
    && c[6] == NextWord(c[4], b[7], a[7], a[6])
    && c[7] == NextWord(c[5], c[0], b[0], a[7])
  }

  lemma Follows2()
    ensures Follows(WordRow(0), WordRow(1), WordRow(2))
  {
  }

  lemma Follows3()
    ensures Follows(WordRow(1), WordRow(2), WordRow(3))
  {
  }

  lemma Follows4()
    ensures Follows(WordRow(2), WordRow(3), WordRow(4))
  {
  }

  lemma Follows5()
    ensures Follows(WordRow(3), WordRow(4), WordRow(5))
  {
  }

  lemma Follows6()
    ensures Follows(WordRow(4), WordRow(5), WordRow(6))
  {
  }

  lemma Follows7()
    ensures Follows(WordRow(5), WordRow(6), WordRow(7))
  {
  }

  lemma NextScheduled(m: Block, t: nat)
    requires 16 <= t < 64
    ensures Schedule(m, t) == NextWord(Schedule(m, t - 2), Schedule(m, t - 7), Schedule(m, t - 15), Schedule(m, t - 16))
  {
    hide SmallSigma0, SmallSigma1, Add;
  }

  predicate RowIs(m: Block, i: nat, r: seq<Word>)
    requires i < 8 && |r| == 8
  {
    && Schedule(m, 8 * i) == r[0] && Schedule(m, 8 * i + 1) == r[1]
    && Schedule(m, 8 * i + 2) == r[2] && Schedule(m, 8 * i + 3) == r[3]
    && Schedule(m, 8 * i + 4) == r[4] && Schedule(m, 8 * i + 5) == r[5]
    && Schedule(m, 8 * i + 6) == r[6] && Schedule(m, 8 * i + 7) == r[7]
  }

  lemma ScheduledIs(m: Block, i: nat)
    requires i < 8
    ensures Scheduled(m, i) <==> RowIs(m, i, WordRow(i))
  {
    hide Schedule, WordRow;
  }

  lemma NextRow(m: Block, i: nat)
    requires 2 <= i < 8 && Scheduled(m, i - 2) && Scheduled(m, i - 1)
    requires Follows(WordRow(i - 2), WordRow(i - 1), WordRow(i))
    ensures Scheduled(m, i)
  {
    hide Schedule, NextWord, WordRow, Scheduled;
    ScheduledIs(m, i - 2);
    ScheduledIs(m, i - 1);
    ScheduledIs(m, i);
    NextScheduled(m, 8 * i);
    NextScheduled(m, 8 * i + 1);
    NextScheduled(m, 8 * i + 2);
    NextScheduled(m, 8 * i + 3);
    NextScheduled(m, 8 * i + 4);
    NextScheduled(m, 8 * i + 5);
    NextScheduled(m, 8 * i + 6);
    NextScheduled(m, 8 * i + 7);
  }

  lemma WordLiterals()
    ensures WordOf(0x61, 0x62, 0x63, 0x80) == 0x61626380 && WordOf(0, 0, 0, 0) == 0 && WordOf(0, 0, 0, 0x18) == 0x18
  {
  }

  lemma FirstRows(m: Block)
    requires IsAbcBlock(m)
    ensures Scheduled(m, 0) && Scheduled(m, 1)
  {
    WordLiterals();
    hide WordOf;
  }

  lemma Words(m: Block)
    requires IsAbcBlock(m)
    ensures forall i :: 0 <= i < 8 ==> Scheduled(m, i)
  {
    hide Scheduled, WordRow, Follows, IsAbcBlock;
    FirstRows(m);
    Follows2();
    Follows3();
    Follows4();
    Follows5();
    Follows6();
    Follows7();
    NextRow(m, 2);
    NextRow(m, 3);
    NextRow(m, 4);
    NextRow(m, 5);
    NextRow(m, 6);
    NextRow(m, 7);
  }

  // A round moves the variables up and makes new ones of a and e.
  predicate Makes(a: Word, b: Word, c: Word, d: Word, e: Word, f: Word, g: Word, h: Word, k: Word, w: Word,
                  a': Word, e': Word)
  {
    Round(Vars(a, b, c, d, e, f, g, h), k, w) == Vars(a', a, b, c, e', e, f, g)
  }

  lemma OneRound(m: Block, i: nat, j: nat)
    requires i < 8 && j < 8 && Scheduled(m, i)
    ensures Rounds(INITIAL, m, 8 * i + j + 1) == Round(Rounds(INITIAL, m, 8 * i + j), KRow(i)[j], WordRow(i)[j])
  {
    hide Round, KRow, KRows, WordRow, Schedule;
    KRowsAt(8, i, j);
  }

  lemma RowOfRounds(m: Block, i: nat)
    requires i < 8 && Scheduled(m, i)
    ensures var k, w := KRow(i), WordRow(i);
      Rounds(INITIAL, m, 8 * i + 8) ==
      Round(Round(Round(Round(Round(Round(Round(Round(Rounds(INITIAL, m, 8 * i), k[0], w[0]), k[1], w[1]), k[2], w[2]),
        k[3], w[3]), k[4], w[4]), k[5], w[5]), k[6], w[6]), k[7], w[7])
  {
    hide Round, KRow, WordRow, Rounds, Scheduled;
    OneRound(m, i, 0);
    OneRound(m, i, 1);
    OneRound(m, i, 2);
    OneRound(m, i, 3);
    OneRound(m, i, 4);
    OneRound(m, i, 5);
    OneRound(m, i, 6);
    OneRound(m, i, 7);
  }

  lemma Makes0()
    ensures Makes(0x6a09e667, 0xbb67ae85, 0x3c6ef372, 0xa54ff53a, 0x510e527f, 0x9b05688c, 0x1f83d9ab, 0x5be0cd19,
                  0x428a2f98, 0x61626380, 0x5d6aebcd, 0xfa2a4622)
    ensures Makes(0x5d6aebcd, 0x6a09e667, 0xbb67ae85, 0x3c6ef372, 0xfa2a4622, 0x510e527f, 0x9b05688c, 0x1f83d9ab,
                  0x71374491, 0x00000000, 0x5a6ad9ad, 0x78ce7989)
    ensures Makes(0x5a6ad9ad, 0x5d6aebcd, 0x6a09e667, 0xbb67ae85, 0x78ce7989, 0xfa2a4622, 0x510e527f, 0x9b05688c,
                  0xb5c0fbcf, 0x00000000, 0xc8c347a7, 0xf92939eb)
    ensures Makes(0xc8c347a7, 0x5a6ad9ad, 0x5d6aebcd, 0x6a09e667, 0xf92939eb, 0x78ce7989, 0xfa2a4622, 0x510e527f,
                  0xe9b5dba5, 0x00000000, 0xd550f666, 0x24e00850)
    ensures Makes(0xd550f666, 0xc8c347a7, 0x5a6ad9ad, 0x5d6aebcd, 0x24e00850, 0xf92939eb, 0x78ce7989, 0xfa2a4622,
                  0x3956c25b, 0x00000000, 0x04409a6a, 0x43ada245)
    ensures Makes(0x04409a6a, 0xd550f666, 0xc8c347a7, 0x5a6ad9ad, 0x43ada245, 0x24e00850, 0xf92939eb, 0x78ce7989,
                  0x59f111f1, 0x00000000, 0x2b4209f5, 0x714260ad)
    ensures Makes(0x2b4209f5, 0x04409a6a, 0xd550f666, 0xc8c347a7, 0x714260ad, 0x43ada245, 0x24e00850, 0xf92939eb,
                  0x923f82a4, 0x00000000, 0xe5030380, 0x9b27a401)
    ensures Makes(0xe5030380, 0x2b4209f5, 0x04409a6a, 0xd550f666, 0x9b27a401, 0x714260ad, 0x43ada245, 0x24e00850,
                  0xab1c5ed5, 0x00000000, 0x85a07b5f, 0x0c657a79)
  {
  }

  lemma Rounds0(m: Block)
    requires Scheduled(m, 0) && Rounds(INITIAL, m, 0) ==
      Vars(0x6a09e667, 0xbb67ae85, 0x3c6ef372, 0xa54ff53a, 0x510e527f, 0x9b05688c, 0x1f83d9ab, 0x5be0cd19)
    ensures Rounds(INITIAL, m, 8) ==
      Vars(0x85a07b5f, 0xe5030380, 0x2b4209f5, 0x04409a6a, 0x0c657a79, 0x9b27a401, 0x714260ad, 0x43ada245)
  {
    hide Rounds, Scheduled, Round;
    Makes0();
    RowOfRounds(m, 0);
  }

  lemma Makes8()
    ensures Makes(0x85a07b5f, 0xe5030380, 0x2b4209f5, 0x04409a6a, 0x0c657a79, 0x9b27a401, 0x714260ad, 0x43ada245,
                  0xd807aa98, 0x00000000, 0x8e04ecb9, 0x32ca2d8c)
    ensures Makes(0x8e04ecb9, 0x85a07b5f, 0xe5030380, 0x2b4209f5, 0x32ca2d8c, 0x0c657a79, 0x9b27a401, 0x714260ad,
                  0x12835b01, 0x00000000, 0x8c87346b, 0x1cc92596)
    ensures Makes(0x8c87346b, 0x8e04ecb9, 0x85a07b5f, 0xe5030380, 0x1cc92596, 0x32ca2d8c, 0x0c657a79, 0x9b27a401,
                  0x243185be, 0x00000000, 0x4798a3f4, 0x436b23e8)
    ensures Makes(0x4798a3f4, 0x8c87346b, 0x8e04ecb9, 0x85a07b5f, 0x436b23e8, 0x1cc92596, 0x32ca2d8c, 0x0c657a79,
                  0x550c7dc3, 0x00000000, 0xf71fc5a9, 0x816fd6e9)
    ensures Makes(0xf71fc5a9, 0x4798a3f4, 0x8c87346b, 0x8e04ecb9, 0x816fd6e9, 0x436b23e8, 0x1cc92596, 0x32ca2d8c,
                  0x72be5d74, 0x00000000, 0x87912990, 0x1e578218)
    ensures Makes(0x87912990, 0xf71fc5a9, 0x4798a3f4, 0x8c87346b, 0x1e578218, 0x816fd6e9, 0x436b23e8, 0x1cc92596,
                  0x80deb1fe, 0x00000000, 0xd932eb16, 0x745a48de)
    ensures Makes(0xd932eb16, 0x87912990, 0xf71fc5a9, 0x4798a3f4, 0x745a48de, 0x1e578218, 0x816fd6e9, 0x436b23e8,
                  0x9bdc06a7, 0x00000000, 0xc0645fde, 0x0b92f20c)
    ensures Makes(0xc0645fde, 0xd932eb16, 0x87912990, 0xf71fc5a9, 0x0b92f20c, 0x745a48de, 0x1e578218, 0x816fd6e9,
                  0xc19bf174, 0x00000018, 0xb0fa238e, 0x07590dcd)
  {
  }

  lemma Rounds8(m: Block)
    requires Scheduled(m, 1) && Rounds(INITIAL, m, 8) ==
      Vars(0x85a07b5f, 0xe5030380, 0x2b4209f5, 0x04409a6a, 0x0c657a79, 0x9b27a401, 0x714260ad, 0x43ada245)
    ensures Rounds(INITIAL, m, 16) ==
      Vars(0xb0fa238e, 0xc0645fde, 0xd932eb16, 0x87912990, 0x07590dcd, 0x0b92f20c, 0x745a48de, 0x1e578218)
  {
    hide Rounds, Scheduled, Round;
    Makes8();
    RowOfRounds(m, 1);
  }

  lemma Makes16()
    ensures Makes(0xb0fa238e, 0xc0645fde, 0xd932eb16, 0x87912990, 0x07590dcd, 0x0b92f20c, 0x745a48de, 0x1e578218,
                  0xe49b69c1, 0x61626380, 0x21da9a9b, 0x8034229c)
    ensures Makes(0x21da9a9b, 0xb0fa238e, 0xc0645fde, 0xd932eb16, 0x8034229c, 0x07590dcd, 0x0b92f20c, 0x745a48de,
                  0xefbe4786, 0x000f0000, 0xc2fbd9d1, 0x846ee454)
    ensures Makes(0xc2fbd9d1, 0x21da9a9b, 0xb0fa238e, 0xc0645fde, 0x846ee454, 0x8034229c, 0x07590dcd, 0x0b92f20c,
                  0x0fc19dc6, 0x7da86405, 0xfe777bbf, 0xcc899961)
    ensures Makes(0xfe777bbf, 0xc2fbd9d1, 0x21da9a9b, 0xb0fa238e, 0xcc899961, 0x846ee454, 0x8034229c, 0x07590dcd,
                  0x240ca1cc, 0x600003c6, 0xe1f20c33, 0xb0638179)
    ensures Makes(0xe1f20c33, 0xfe777bbf, 0xc2fbd9d1, 0x21da9a9b, 0xb0638179, 0xcc899961, 0x846ee454, 0x8034229c,
                  0x2de92c6f, 0x3e9d7b78, 0x9dc68b63, 0x8ada8930)
    ensures Makes(0x9dc68b63, 0xe1f20c33, 0xfe777bbf, 0xc2fbd9d1, 0x8ada8930, 0xb0638179, 0xcc899961, 0x846ee454,
                  0x4a7484aa, 0x0183fc00, 0xc2606d6d, 0xe1257970)
    ensures Makes(0xc2606d6d, 0x9dc68b63, 0xe1f20c33, 0xfe777bbf, 0xe1257970, 0x8ada8930, 0xb0638179, 0xcc899961,
                  0x5cb0a9dc, 0x12dcbfdb, 0xa7a3623f, 0x49f5114a)
    ensures Makes(0xa7a3623f, 0xc2606d6d, 0x9dc68b63, 0xe1f20c33, 0x49f5114a, 0xe1257970, 0x8ada8930, 0xb0638179,
                  0x76f988da, 0xe2e2c38e, 0xc5d53d8d, 0xaa47c347)
  {
  }

  lemma Rounds16(m: Block)
    requires Scheduled(m, 2) && Rounds(INITIAL, m, 16) ==
      Vars(0xb0fa238e, 0xc0645fde, 0xd932eb16, 0x87912990, 0x07590dcd, 0x0b92f20c, 0x745a48de, 0x1e578218)
    ensures Rounds(INITIAL, m, 24) ==
      Vars(0xc5d53d8d, 0xa7a3623f, 0xc2606d6d, 0x9dc68b63, 0xaa47c347, 0x49f5114a, 0xe1257970, 0x8ada8930)
  {
    hide Rounds, Scheduled, Round;
    Makes16();
    RowOfRounds(m, 2);
  }

  lemma Makes24()
    ensures Makes(0xc5d53d8d, 0xa7a3623f, 0xc2606d6d, 0x9dc68b63, 0xaa47c347, 0x49f5114a, 0xe1257970, 0x8ada8930,
                  0x983e5152, 0xc8215c1a, 0x1c2c2838, 0x2823ef91)
    ensures Makes(0x1c2c2838, 0xc5d53d8d, 0xa7a3623f, 0xc2606d6d, 0x2823ef91, 0xaa47c347, 0x49f5114a, 0xe1257970,
                  0xa831c66d, 0xb73679a2, 0xcde8037d, 0x14383d8e)
    ensures Makes(0xcde8037d, 0x1c2c2838, 0xc5d53d8d, 0xa7a3623f, 0x14383d8e, 0x2823ef91, 0xaa47c347, 0x49f5114a,
                  0xb00327c8, 0xe5bc3909, 0xb62ec4bc, 0xc74c6516)
    ensures Makes(0xb62ec4bc, 0xcde8037d, 0x1c2c2838, 0xc5d53d8d, 0xc74c6516, 0x14383d8e, 0x2823ef91, 0xaa47c347,
                  0xbf597fc7, 0x32663c5b, 0x77d37528, 0xedffbff8)
    ensures Makes(0x77d37528, 0xb62ec4bc, 0xcde8037d, 0x1c2c2838, 0xedffbff8, 0xc74c6516, 0x14383d8e, 0x2823ef91,
                  0xc6e00bf3, 0x9d209d67, 0x363482c9, 0x6112a3b7)
    ensures Makes(0x363482c9, 0x77d37528, 0xb62ec4bc, 0xcde8037d, 0x6112a3b7, 0xedffbff8, 0xc74c6516, 0x14383d8e,
                  0xd5a79147, 0xec8726cb, 0xa0060b30, 0xade79437)
    ensures Makes(0xa0060b30, 0x363482c9, 0x77d37528, 0xb62ec4bc, 0xade79437, 0x6112a3b7, 0xedffbff8, 0xc74c6516,
                  0x06ca6351, 0x702138a4, 0xea992a22, 0x0109ab3a)
    ensures Makes(0xea992a22, 0xa0060b30, 0x363482c9, 0x77d37528, 0x0109ab3a, 0xade79437, 0x6112a3b7, 0xedffbff8,
                  0x14292967, 0xd3b7973b, 0x73b33bf5, 0xba591112)
  {
  }

  lemma Rounds24(m: Block)
    requires Scheduled(m, 3) && Rounds(INITIAL, m, 24) ==
      Vars(0xc5d53d8d, 0xa7a3623f, 0xc2606d6d, 0x9dc68b63, 0xaa47c347, 0x49f5114a, 0xe1257970, 0x8ada8930)
    ensures Rounds(INITIAL, m, 32) ==
      Vars(0x73b33bf5, 0xea992a22, 0xa0060b30, 0x363482c9, 0xba591112, 0x0109ab3a, 0xade79437, 0x6112a3b7)
  {
    hide Rounds, Scheduled, Round;
    Makes24();
    RowOfRounds(m, 3);
  }

  lemma Makes32()
    ensures Makes(0x73b33bf5, 0xea992a22, 0xa0060b30, 0x363482c9, 0xba591112, 0x0109ab3a, 0xade79437, 0x6112a3b7,
                  0x27b70a85, 0x93f5997f, 0x98e12507, 0x9cd9f5f6)
    ensures Makes(0x98e12507, 0x73b33bf5, 0xea992a22, 0xa0060b30, 0x9cd9f5f6, 0xba591112, 0x0109ab3a, 0xade79437,
                  0x2e1b2138, 0x3b68ba73, 0xfe604df5, 0x59249dd3)
    ensures Makes(0xfe604df5, 0x98e12507, 0x73b33bf5, 0xea992a22, 0x59249dd3, 0x9cd9f5f6, 0xba591112, 0x0109ab3a,
                  0x4d2c6dfc, 0xaff4ffc1, 0xa9a7738c, 0x085f3833)
    ensures Makes(0xa9a7738c, 0xfe604df5, 0x98e12507, 0x73b33bf5, 0x085f3833, 0x59249dd3, 0x9cd9f5f6, 0xba591112,
                  0x53380d13, 0xf10a5c62, 0x65a0cfe4, 0xf4b002d6)
    ensures Makes(0x65a0cfe4, 0xa9a7738c, 0xfe604df5, 0x98e12507, 0xf4b002d6, 0x085f3833, 0x59249dd3, 0x9cd9f5f6,
                  0x650a7354, 0x0a8b3996, 0x41a65cb1, 0x0772a26b)
    ensures Makes(0x41a65cb1, 0x65a0cfe4, 0xa9a7738c, 0xfe604df5, 0x0772a26b, 0xf4b002d6, 0x085f3833, 0x59249dd3,
                  0x766a0abb, 0x72af830a, 0x34df1604, 0xa507a53d)
    ensures Makes(0x34df1604, 0x41a65cb1, 0x65a0cfe4, 0xa9a7738c, 0xa507a53d, 0x0772a26b, 0xf4b002d6, 0x085f3833,
                  0x81c2c92e, 0x9409e33e, 0x6dc57a8a, 0xf0781bc8)
    ensures Makes(0x6dc57a8a, 0x34df1604, 0x41a65cb1, 0x65a0cfe4, 0xf0781bc8, 0xa507a53d, 0x0772a26b, 0xf4b002d6,
                  0x92722c85, 0x24641522, 0x79ea687a, 0x1efbc0a0)
  {
  }

  lemma Rounds32(m: Block)
    requires Scheduled(m, 4) && Rounds(INITIAL, m, 32) ==
      Vars(0x73b33bf5, 0xea992a22, 0xa0060b30, 0x363482c9, 0xba591112, 0x0109ab3a, 0xade79437, 0x6112a3b7)
    ensures Rounds(INITIAL, m, 40) ==
      Vars(0x79ea687a, 0x6dc57a8a, 0x34df1604, 0x41a65cb1, 0x1efbc0a0, 0xf0781bc8, 0xa507a53d, 0x0772a26b)
  {
    hide Rounds, Scheduled, Round;
    Makes32();
    RowOfRounds(m, 4);
  }

  lemma Makes40()
    ensures Makes(0x79ea687a, 0x6dc57a8a, 0x34df1604, 0x41a65cb1, 0x1efbc0a0, 0xf0781bc8, 0xa507a53d, 0x0772a26b,
                  0xa2bfe8a1, 0x9f47bf94, 0xd6670766, 0x26352d63)
    ensures Makes(0xd6670766, 0x79ea687a, 0x6dc57a8a, 0x34df1604, 0x26352d63, 0x1efbc0a0, 0xf0781bc8, 0xa507a53d,
                  0xa81a664b, 0xf0a64f5a, 0xdf46652f, 0x838b2711)
    ensures Makes(0xdf46652f, 0xd6670766, 0x79ea687a, 0x6dc57a8a, 0x838b2711, 0x26352d63, 0x1efbc0a0, 0xf0781bc8,
                  0xc24b8b70, 0x3e246a79, 0x17aa0dfe, 0xdecd4715)
    ensures Makes(0x17aa0dfe, 0xdf46652f, 0xd6670766, 0x79ea687a, 0xdecd4715, 0x838b2711, 0x26352d63, 0x1efbc0a0,
                  0xc76c51a3, 0x27333ba3, 0x9d4baf93, 0xfda24c2e)
    ensures Makes(0x9d4baf93, 0x17aa0dfe, 0xdf46652f, 0xd6670766, 0xfda24c2e, 0xdecd4715, 0x838b2711, 0x26352d63,
                  0xd192e819, 0x0c4763f2, 0x26628815, 0xa80f11f0)
    ensures Makes(0x26628815, 0x9d4baf93, 0x17aa0dfe, 0xdf46652f, 0xa80f11f0, 0xfda24c2e, 0xdecd4715, 0x838b2711,
                  0xd6990624, 0x840abf27, 0x72ab4b91, 0xb7755da1)
    ensures Makes(0x72ab4b91, 0x26628815, 0x9d4baf93, 0x17aa0dfe, 0xb7755da1, 0xa80f11f0, 0xfda24c2e, 0xdecd4715,
                  0xf40e3585, 0x7a290d5d, 0xa14c14b0, 0xd57b94a9)
    ensures Makes(0xa14c14b0, 0x72ab4b91, 0x26628815, 0x9d4baf93, 0xd57b94a9, 0xb7755da1, 0xa80f11f0, 0xfda24c2e,
                  0x106aa070, 0x065c43da, 0x4172328d, 0xfecf0bc6)
  {
  }

  lemma Rounds40(m: Block)
    requires Scheduled(m, 5) && Rounds(INITIAL, m, 40) ==
      Vars(0x79ea687a, 0x6dc57a8a, 0x34df1604, 0x41a65cb1, 0x1efbc0a0, 0xf0781bc8, 0xa507a53d, 0x0772a26b)
    ensures Rounds(INITIAL, m, 48) ==
      Vars(0x4172328d, 0xa14c14b0, 0x72ab4b91, 0x26628815, 0xfecf0bc6, 0xd57b94a9, 0xb7755da1, 0xa80f11f0)
  {
    hide Rounds, Scheduled, Round;
    Makes40();
    RowOfRounds(m, 5);
  }

  lemma Makes48()
    ensures Makes(0x4172328d, 0xa14c14b0, 0x72ab4b91, 0x26628815, 0xfecf0bc6, 0xd57b94a9, 0xb7755da1, 0xa80f11f0,
                  0x19a4c116, 0xfb3e89cb, 0x05757ceb, 0xbd714038)
    ensures Makes(0x05757ceb, 0x4172328d, 0xa14c14b0, 0x72ab4b91, 0xbd714038, 0xfecf0bc6, 0xd57b94a9, 0xb7755da1,
                  0x1e376c08, 0xcc7617db, 0xf11bfaa8, 0x6e5c390c)
    ensures Makes(0xf11bfaa8, 0x05757ceb, 0x4172328d, 0xa14c14b0, 0x6e5c390c, 0xbd714038, 0xfecf0bc6, 0xd57b94a9,
                  0x2748774c, 0xb9e66c34, 0x7a0508a1, 0x52f1ccf7)
    ensures Makes(0x7a0508a1, 0xf11bfaa8, 0x05757ceb, 0x4172328d, 0x52f1ccf7, 0x6e5c390c, 0xbd714038, 0xfecf0bc6,
                  0x34b0bcb5, 0xa9993667, 0x886e7a22, 0x49231c1e)
    ensures Makes(0x886e7a22, 0x7a0508a1, 0xf11bfaa8, 0x05757ceb, 0x49231c1e, 0x52f1ccf7, 0x6e5c390c, 0xbd714038,
                  0x391c0cb3, 0x84badedd, 0x101fd28f, 0x529e7d00)
    ensures Makes(0x101fd28f, 0x886e7a22, 0x7a0508a1, 0xf11bfaa8, 0x529e7d00, 0x49231c1e, 0x52f1ccf7, 0x6e5c390c,
                  0x4ed8aa4a, 0xc21462bc, 0xf5702fdb, 0x9f4787c3)
    ensures Makes(0xf5702fdb, 0x101fd28f, 0x886e7a22, 0x7a0508a1, 0x9f4787c3, 0x529e7d00, 0x49231c1e, 0x52f1ccf7,
                  0x5b9cca4f, 0x1487472c, 0x3ec45cdb, 0xe50e1b4f)
    ensures Makes(0x3ec45cdb, 0xf5702fdb, 0x101fd28f, 0x886e7a22, 0xe50e1b4f, 0x9f4787c3, 0x529e7d00, 0x49231c1e,
                  0x682e6ff3, 0xb20f7a99, 0x38cc9913, 0x54cb266b)
  {
  }

  lemma Rounds48(m: Block)
    requires Scheduled(m, 6) && Rounds(INITIAL, m, 48) ==
      Vars(0x4172328d, 0xa14c14b0, 0x72ab4b91, 0x26628815, 0xfecf0bc6, 0xd57b94a9, 0xb7755da1, 0xa80f11f0)
    ensures Rounds(INITIAL, m, 56) ==
      Vars(0x38cc9913, 0x3ec45cdb, 0xf5702fdb, 0x101fd28f, 0x54cb266b, 0xe50e1b4f, 0x9f4787c3, 0x529e7d00)
  {
    hide Rounds, Scheduled, Round;
    Makes48();
    RowOfRounds(m, 6);
  }

  lemma Makes56()
    ensures Makes(0x38cc9913, 0x3ec45cdb, 0xf5702fdb, 0x101fd28f, 0x54cb266b, 0xe50e1b4f, 0x9f4787c3, 0x529e7d00,
                  0x748f82ee, 0xef57b9cd, 0xfcd1887b, 0x9b5e906c)
    ensures Makes(0xfcd1887b, 0x38cc9913, 0x3ec45cdb, 0xf5702fdb, 0x9b5e906c, 0x54cb266b, 0xe50e1b4f, 0x9f4787c3,
                  0x78a5636f, 0xebe6b238, 0xc062d46f, 0x7e44008e)
    ensures Makes(0xc062d46f, 0xfcd1887b, 0x38cc9913, 0x3ec45cdb, 0x7e44008e, 0x9b5e906c, 0x54cb266b, 0xe50e1b4f,
                  0x84c87814, 0x9fe3095e, 0xffb70472, 0x6d83bfc6)
    ensures Makes(0xffb70472, 0xc062d46f, 0xfcd1887b, 0x38cc9913, 0x6d83bfc6, 0x7e44008e, 0x9b5e906c, 0x54cb266b,
                  0x8cc70208, 0x78bc8d4b, 0xb6ae8fff, 0xb21bad3d)
    ensures Makes(0xb6ae8fff, 0xffb70472, 0xc062d46f, 0xfcd1887b, 0xb21bad3d, 0x6d83bfc6, 0x7e44008e, 0x9b5e906c,
                  0x90befffa, 0xa43fcf15, 0xb85e2ce9, 0x961f4894)
    ensures Makes(0xb85e2ce9, 0xb6ae8fff, 0xffb70472, 0xc062d46f, 0x961f4894, 0xb21bad3d, 0x6d83bfc6, 0x7e44008e,
                  0xa4506ceb, 0x668b2ff8, 0x04d24d6c, 0x948d25b6)
    ensures Makes(0x04d24d6c, 0xb85e2ce9, 0xb6ae8fff, 0xffb70472, 0x948d25b6, 0x961f4894, 0xb21bad3d, 0x6d83bfc6,
                  0xbef9a3f7, 0xeeaba2cc, 0xd39a2165, 0xfb121210)
    ensures Makes(0xd39a2165, 0x04d24d6c, 0xb85e2ce9, 0xb6ae8fff, 0xfb121210, 0x948d25b6, 0x961f4894, 0xb21bad3d,
                  0xc67178f2, 0x12b1edeb, 0x506e3058, 0x5ef50f24)
  {
  }

  lemma Rounds56(m: Block)
    requires Scheduled(m, 7) && Rounds(INITIAL, m, 56) ==
      Vars(0x38cc9913, 0x3ec45cdb, 0xf5702fdb, 0x101fd28f, 0x54cb266b, 0xe50e1b4f, 0x9f4787c3, 0x529e7d00)
    ensures Rounds(INITIAL, m, 64) ==
      Vars(0x506e3058, 0xd39a2165, 0x04d24d6c, 0xb85e2ce9, 0x5ef50f24, 0xfb121210, 0x948d25b6, 0x961f4894)
  {
    hide Rounds, Scheduled, Round;
    Makes56();
    RowOfRounds(m, 7);
  }

  lemma RoundsOfAbc(m: Block)
    requires IsAbcBlock(m)
    ensures Rounds(INITIAL, m, 64) ==
      Vars(0x506e3058, 0xd39a2165, 0x04d24d6c, 0xb85e2ce9, 0x5ef50f24, 0xfb121210, 0x948d25b6, 0x961f4894)
  {
    hide Rounds, Scheduled, WordRow, KRow, IsAbcBlock;
    Words(m);
    Start(m);
    Rounds0(m);
    Rounds8(m);
    Rounds16(m);
    Rounds24(m);
    Rounds32(m);
    Rounds40(m);
    Rounds48(m);
    Rounds56(m);
  }

  lemma Start(m: Block)
    ensures Rounds(INITIAL, m, 0) == Vars(0x6a09e667, 0xbb67ae85, 0x3c6ef372, 0xa54ff53a, 0x510e527f, 0x9b05688c, 0x1f83d9ab, 0x5be0cd19)
  {
  }

  lemma TransformOfAbc(m: Block)
    requires IsAbcBlock(m)
    ensures Transform(INITIAL, m) ==
      Vars(0xba7816bf, 0x8f01cfea, 0x414140de, 0x5dae2223, 0xb00361a3, 0x96177a9c, 0xb410ff61, 0xf20015ad)
  {
    hide Rounds, IsAbcBlock;
    RoundsOfAbc(m);
  }

  lemma AbcIsOneBlock()
    ensures |Padded(ABC)| == 64 && IsAbcBlock(Padded(ABC))
  {
    hide CountBytes;
    LengthOfAbc();
    assert Padded(ABC) == ABC + ([0x80] + Zeros(52) + CountBytes(24));
  }

  lemma LengthOfAbc()
    ensures CountBytes(24) == [0, 0, 0, 0, 0, 0, 0, 0x18]
  {
    ByteLiterals();
    hide ByteOf;
  }

  lemma ByteLiterals()
    ensures ByteOf(0) == 0 && ByteOf(24) == 0x18
  {
  }

  // The digest of "abc".
  lemma HashOfAbc()
    ensures Hash(ABC) ==
      [0xba, 0x78, 0x16, 0xbf, 0x8f, 0x01, 0xcf, 0xea, 0x41, 0x41, 0x40, 0xde, 0x5d, 0xae, 0x22, 0x23,
       0xb0, 0x03, 0x61, 0xa3, 0x96, 0x17, 0x7a, 0x9c, 0xb4, 0x10, 0xff, 0x61, 0xf2, 0x00, 0x15, 0xad]
  {
    hide Transform, Padded, IsAbcBlock;
    AbcIsOneBlock();
    TransformOfAbc(Padded(ABC));
    assert Padded(ABC)[..64] == Padded(ABC) && Padded(ABC)[64..] == [];
    assert Fold(Transform, INITIAL, Padded(ABC)) == Fold(Transform, Transform(INITIAL, Padded(ABC)), []);
  }
}
