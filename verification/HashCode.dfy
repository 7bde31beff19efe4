// Hash codes and bucket indices of machista's hash map.
// The C code works on uint32_t; here a word is a natural number and every wrap-around is written out.
module HashCode {
  import opened CTypes

  type Key = seq<CharCode>

  // Bitwise operations on natural numbers, one bit at a time.
  function BitAnd(a: nat, b: nat): (r: nat)
    ensures r <= a && r <= b
  {
    if a == 0 || b == 0 then 0
    else 2 * BitAnd(a / 2, b / 2) + (if a % 2 == 1 && b % 2 == 1 then 1 else 0)
  }

  function BitXor(a: nat, b: nat): nat
    decreases a + b
  {
    if a == 0 then b
    else if b == 0 then a
    else 2 * BitXor(a / 2, b / 2) + (if a % 2 != b % 2 then 1 else 0)
  }

  // The i-th bit from the right.
  predicate BitAt(n: nat, i: nat): (on: bool)
    ensures i == 0 ==> (on <==> n % 2 != 0)
  {
    if i == 0 then n % 2 == 1 else BitAt(n / 2, i - 1)
  }

  lemma {:induction false} ZeroHasNoBits(i: nat)
    ensures !BitAt(0, i)
  {
    if i > 0 {
      ZeroHasNoBits(i - 1);
    }
  }

  lemma {:induction false} BitsOfAnd(a: nat, b: nat, i: nat)
    ensures BitAt(BitAnd(a, b), i) <==> BitAt(a, i) && BitAt(b, i)
    decreases i
  {
    ZeroHasNoBits(i);
    if i > 0 && a != 0 && b != 0 {
      BitsOfAnd(a / 2, b / 2, i - 1);
    }
  }

  lemma {:induction false} BitsOfXor(a: nat, b: nat, i: nat)
    ensures BitAt(BitXor(a, b), i) <==> BitAt(a, i) != BitAt(b, i)
    decreases i
  {
    ZeroHasNoBits(i);
    if i > 0 && a != 0 && b != 0 {
      BitsOfXor(a / 2, b / 2, i - 1);
    }
  }

  predicate PowerOfTwo(n: nat) {
    n == 1 || (n > 1 && n % 2 == 0 && PowerOfTwo(n / 2))
  }

  // The exclusive or of two words is a word.
  lemma {:induction false} XorStaysBelow(a: nat, b: nat, n: nat)
    requires PowerOfTwo(n) && a < n && b < n
    ensures BitXor(a, b) < n
  {
    if a != 0 && b != 0 {
      XorStaysBelow(a / 2, b / 2, n / 2);
    }
  }

  lemma TimesSixteen(n: nat)
    requires PowerOfTwo(n)
    ensures PowerOfTwo(16 * n)
  {
    hide PowerOfTwo;
    Twice(n);
    Twice(2 * n);
    Twice(4 * n);
    Twice(8 * n);
  }

  lemma Twice(n: nat)
    requires PowerOfTwo(n)
    ensures PowerOfTwo(2 * n)
  {
  }

  lemma WordIsPowerOfTwo()
    ensures PowerOfTwo(UINT_RANGE) && PowerOfTwo(UINT_RANGE / 2)
  {
    assert PowerOfTwo(1);
    hide PowerOfTwo;
    TimesSixteen(1);
    TimesSixteen(0x10);
    TimesSixteen(0x100);
    TimesSixteen(0x1000);
    TimesSixteen(0x1_0000);
    TimesSixteen(0x10_0000);
    TimesSixteen(0x100_0000);
    TimesSixteen(0x1000_0000);
    Half(UINT_RANGE);
  }

  lemma Half(n: nat)
    requires PowerOfTwo(n) && n > 1
    ensures PowerOfTwo(n / 2)
  {
  }

  // A char is signed where the program runs: bytes above 127 are sign-extended when they are added.
  function SignExtended(c: CharCode): nat {
    if c < 128 then c else c + UINT_RANGE - 256
  }

  lemma CharIsSigned(c: CharCode)
    ensures 0 <= c <= 127 ==> SignExtended(c) == c
    ensures 128 <= c <= 255 ==> SignExtended(c) == 0x1_0000_0000 - (256 - c)
  {
  }

  function Polynomial(key: Key): (h: nat)
    ensures h < UINT_RANGE
  {
    if key == [] then 0
    else (31 * Polynomial(key[..|key| - 1]) + SignExtended(key[|key| - 1])) % UINT_RANGE
  }

  // The two mixing steps; a right shift by n divides by 2^n.
  function Mix(h: nat): nat {
    var g := BitXor(h, BitXor(h / 0x10_0000, h / 0x1000));
    BitXor(BitXor(g, g / 0x80), g / 0x10)
  }

  lemma MixStaysWord(h: nat)
    requires h < UINT_RANGE
    ensures Mix(h) < UINT_RANGE
  {
    hide BitXor, PowerOfTwo;
    WordIsPowerOfTwo();
    XorStaysBelow(h / 0x10_0000, h / 0x1000, UINT_RANGE);
    XorStaysBelow(h, BitXor(h / 0x10_0000, h / 0x1000), UINT_RANGE);
    var g := BitXor(h, BitXor(h / 0x10_0000, h / 0x1000));
    XorStaysBelow(g, g / 0x80, UINT_RANGE);
    XorStaysBelow(BitXor(g, g / 0x80), g / 0x10, UINT_RANGE);
  }

  function HashOf(key: Key): nat {
    Mix(Polynomial(key))
  }

  lemma NextPolynomial(key: Key, c: CharCode)
    ensures Polynomial(key + [c]) == (31 * Polynomial(key) + SignExtended(c)) % UINT_RANGE
  {
    assert (key + [c])[..|key|] == key;
  }

  // The polynomial of "zlib." and a byte above 127, which counts as negative.
  lemma PolynomialExample()
    ensures Polynomial([122, 108, 105, 98, 46, 195]) == 0xd6525660
  {
    NextPolynomial([], 122);
    PolynomialOfNothing();
    assert [] + [122] == [122] && Polynomial([122]) == 0x7a;
    NextPolynomial([122], 108);
    assert [122] + [108] == [122, 108] && Polynomial([122, 108]) == 0xf32;
    NextPolynomial([122, 108], 105);
    assert [122, 108] + [105] == [122, 108, 105] && Polynomial([122, 108, 105]) == 0x1d777;
    NextPolynomial([122, 108, 105], 98);
    assert [122, 108, 105] + [98] == [122, 108, 105, 98] && Polynomial([122, 108, 105, 98]) == 0x3917cb;
    NextPolynomial([122, 108, 105, 98], 46);
    assert [122, 108, 105, 98] + [46] == [122, 108, 105, 98, 46];
    assert Polynomial([122, 108, 105, 98, 46]) == 0x6e9e1c3;
    NextPolynomial([122, 108, 105, 98, 46], 195);
    assert [122, 108, 105, 98, 46] + [195] == [122, 108, 105, 98, 46, 195];
  }

  lemma PolynomialOfNothing()
    ensures Polynomial([]) == 0
  {
  }

  lemma ByEight(n: nat, i: nat)
    ensures BitAt(n / 8, i) <==> BitAt(n, i + 3)
  {
    assert BitAt(n, i + 3) == BitAt(n / 2, i + 2) == BitAt(n / 2 / 2, i + 1) == BitAt(n / 2 / 2 / 2, i);
    assert n / 2 / 2 / 2 == n / 8;
  }

  lemma BySixteen(n: nat, i: nat)
    ensures BitAt(n / 0x10, i) <==> BitAt(n, i + 4)
  {
    ByEight(n / 2, i);
    assert n / 2 / 8 == n / 0x10 && BitAt(n, i + 4) == BitAt(n / 2, i + 3);
  }

  // Dividing moves the bits to the right.
  lemma Shifts(n: nat, i: nat)
    ensures BitAt(n / 0x10, i) <==> BitAt(n, i + 4)
    ensures BitAt(n / 0x80, i) <==> BitAt(n, i + 7)
    ensures BitAt(n / 0x1000, i) <==> BitAt(n, i + 12)
    ensures BitAt(n / 0x10_0000, i) <==> BitAt(n, i + 20)
  {
    hide BitAt;
    BySixteen(n, i);
    BySixteen(n, i + 3);
    ByEight(n / 0x10, i);
    BySixteen(n, i + 8);
    BySixteen(n / 0x10, i + 4);
    BySixteen(n / 0x100, i);
    BySixteen(n, i + 16);
    BySixteen(n / 0x10, i + 12);
    BySixteen(n / 0x100, i + 8);
    BySixteen(n / 0x1000, i + 4);
    BySixteen(n / 0x1_0000, i);
    Quotients(n);
  }

  lemma Quotients(n: nat)
    ensures n / 0x10 / 8 == n / 0x80 && n / 0x10 / 0x10 == n / 0x100 && n / 0x100 / 0x10 == n / 0x1000
    ensures n / 0x1000 / 0x10 == n / 0x1_0000 && n / 0x1_0000 / 0x10 == n / 0x10_0000
  {
  }

  // A bit of h ^ (h >> 20) ^ (h >> 12).
  predicate Mixed(h: nat, i: nat) {
    BitAt(h, i) != (BitAt(h, i + 20) != BitAt(h, i + 12))
  }

  // Mixing, bit by bit.
  lemma MixBits(h: nat, i: nat)
    ensures BitAt(Mix(h), i) <==> ((Mixed(h, i) != Mixed(h, i + 7)) != Mixed(h, i + 4))
  {
    hide BitAt, BitXor;
    var x := BitXor(h / 0x10_0000, h / 0x1000);
    var g := BitXor(h, x);
    MixedBit(h, i);
    MixedBit(h, i + 7);
    MixedBit(h, i + 4);
    Shifts(g, i);
    BitsOfXor(g, g / 0x80, i);
    BitsOfXor(BitXor(g, g / 0x80), g / 0x10, i);
  }

  lemma MixedBit(h: nat, i: nat)
    ensures BitAt(BitXor(h, BitXor(h / 0x10_0000, h / 0x1000)), i) <==> Mixed(h, i)
  {
    hide BitAt, BitXor;
    Shifts(h, i);
    BitsOfXor(h / 0x10_0000, h / 0x1000, i);
    BitsOfXor(h, BitXor(h / 0x10_0000, h / 0x1000), i);
  }

  method DoHash(key: Key) returns (h: nat)
    ensures h == HashOf(key) && h < UINT_RANGE
  {
    hide Mix, BitXor;
    h := 0;
    for i := 0 to |key|
      invariant h == Polynomial(key[..i])
    {
      assert key[..i + 1][..i] == key[..i];
      h := (31 * h + SignExtended(key[i])) % UINT_RANGE;
    }
    assert key[..|key|] == key;
    MixStaysWord(h);
    h := Mix(h);
  }

  // The bucket of a hash: masking with length - 1.
  function IndexFor(hash: nat, length: nat): (i: nat)
    requires length > 0
    ensures i < length
  {
    BitAnd(hash, length - 1)
  }

  // Masking picks the remainder exactly because capacities are powers of two.
  lemma {:induction false} MaskIsRemainder(hash: nat, length: nat)
    requires PowerOfTwo(length)
    ensures IndexFor(hash, length) == hash % length
  {
    hide IndexFor;
    if length > 1 {
      MaskIsRemainder(hash / 2, length / 2);
      MaskStep(hash, length);
      HalfRemainder(hash, length / 2);
    }
  }

  lemma MaskStep(hash: nat, length: nat)
    requires length > 1 && length % 2 == 0
    ensures IndexFor(hash, length) == 2 * IndexFor(hash / 2, length / 2) + hash % 2
  {
    assert (length - 1) / 2 == length / 2 - 1;
  }

  lemma HalfRemainder(h: nat, n: nat)
    requires n > 0
    ensures h % (2 * n) == 2 * (h / 2 % n) + h % 2
  {
    var q := h / 2 / n;
    var r := 2 * (h / 2 % n) + h % 2;
    assert h / 2 == n * q + h / 2 % n;
    assert h == (2 * n) * q + r by {
      assert (2 * n) * q == 2 * (n * q);
    }
    Unique(h, 2 * n, q, r);
  }

  lemma Unique(h: nat, d: nat, q: nat, r: nat)
    requires d > 0 && h == d * q + r && r < d
    ensures h % d == r
  {
    var k := h / d - q;
    assert h == d * (h / d) + h % d;
    assert d * k == d * (h / d) - d * q;
    assert k >= 1 ==> d * k >= d;
    assert k <= -1 ==> d * k <= -(d as int);
  }

  lemma Halves(h: nat, n: nat, q: nat, r: nat)
    requires n > 0 && h == (2 * n) * q + r && r < 2 * n
    ensures h % n == if r < n then r else r - n
  {
    assert (2 * n) * q == n * (2 * q);
    if r < n {
      Unique(h, n, 2 * q, r);
    } else {
      assert n * (2 * q + 1) == n * (2 * q) + n;
      Unique(h, n, 2 * q + 1, r - n);
    }
  }

  lemma Division(h: nat, m: nat) returns (q: nat, r: nat)
    requires m > 0
    ensures h == m * q + r && r < m && r == h % m
  {
    q, r := h / m, h % m;
  }

  // Doubling the table keeps a bucket together or moves entries up by the old capacity.
  lemma DoublingSplitsBucket(hash: nat, length: nat)
    requires PowerOfTwo(length)
    ensures PowerOfTwo(2 * length)
    ensures
      || IndexFor(hash, 2 * length) == IndexFor(hash, length)
      || IndexFor(hash, 2 * length) == IndexFor(hash, length) + length
  {
    MaskIsRemainder(hash, length);
    MaskIsRemainder(hash, 2 * length);
    hide IndexFor, PowerOfTwo;
    var q, r := Division(hash, 2 * length);
    Halves(hash, length, q, r);
  }
}
