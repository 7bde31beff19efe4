// What SHA-256 and RIPEMD-160 share: hashing a message block by block, and its padding.
module BlockHash {
  import opened CTypes

  type Block = b: seq<Byte> | |b| == 64 witness seq(64, _ => 0)

  const COUNT_RANGE: nat := 0x1_0000_0000_0000_0000

  // The state after the whole blocks of the message.
  function Fold<S>(transform: (S, Block) -> S, state: S, message: seq<Byte>): S
    decreases |message|
  {
    if |message| < 64 then state else Fold(transform, transform(state, message[..64]), message[64..])
  }

  lemma {:induction false} FoldContinues<S>(transform: (S, Block) -> S, state: S, a: seq<Byte>, b: seq<Byte>)
    requires |a| % 64 == 0
    ensures Fold(transform, state, a + b) == Fold(transform, Fold(transform, state, a), b)
    decreases |a|
  {
    if a == [] {
      assert a + b == b;
    } else {
      assert (a + b)[..64] == a[..64] && (a + b)[64..] == a[64..] + b;
      FoldContinues(transform, transform(state, a[..64]), a[64..], b);
    }
  }

  // One more block.
  lemma FoldOneMore<S>(transform: (S, Block) -> S, state: S, a: seq<Byte>, block: Block)
    requires |a| % 64 == 0
    ensures Fold(transform, state, a + block) == transform(Fold(transform, state, a), block)
  {
    FoldContinues(transform, state, a, block);
    assert block[..64] == block && block[64..] == [];
    assert Fold(transform, transform(Fold(transform, state, a), block), []) == transform(Fold(transform, state, a), block);
  }

  // The part of a message that fills whole blocks, and the rest.
  function Whole(message: seq<Byte>): (w: seq<Byte>)
    ensures |w| % 64 == 0
  {
    message[..|message| / 64 * 64]
  }

  function Rest(message: seq<Byte>): (r: seq<Byte>)
    ensures |r| == |message| % 64 && message == Whole(message) + r
  {
    message[|message| / 64 * 64..]
  }

  // The bit count kept modulo 2^64 still tells how many bytes are buffered.
  lemma BufferedFromCount(n: nat)
    ensures 8 * n % COUNT_RANGE / 8 % 64 == n % 64
  {
    var q, r := 8 * n / COUNT_RANGE, 8 * n % COUNT_RANGE;
    assert 8 * n == q * COUNT_RANGE + r;
    assert r == 8 * (n - q * 0x2000_0000_0000_0000);
    assert r / 8 == n - 64 * (q * 0x0080_0000_0000_0000);
  }

  lemma CountAdds(c: nat, m: nat, n: nat)
    requires c == 8 * m % COUNT_RANGE
    ensures (c + 8 * n) % COUNT_RANGE == 8 * (m + n) % COUNT_RANGE
  {
    var q, p, r := 8 * m / COUNT_RANGE, (c + 8 * n) / COUNT_RANGE, (c + 8 * n) % COUNT_RANGE;
    assert 8 * m == q * COUNT_RANGE + c && c + 8 * n == p * COUNT_RANGE + r;
    assert 8 * (m + n) == (q + p) * COUNT_RANGE + r;
  }

  function Zeros(n: nat): (z: seq<Byte>)
    ensures |z| == n
  {
    seq(n, _ => 0)
  }

  function ByteOfBits(b0: bool, b1: bool, b2: bool, b3: bool, b4: bool, b5: bool, b6: bool, b7: bool): Byte {
    (if b0 then 1 else 0) | (if b1 then 2 else 0) | (if b2 then 4 else 0) | (if b3 then 8 else 0) |
    (if b4 then 0x10 else 0) | (if b5 then 0x20 else 0) | (if b6 then 0x40 else 0) | (if b7 then 0x80 else 0)
  }

  // The lowest eight bits of a number.
  function ByteOf(n: nat): Byte {
    ByteOfBits(n % 2 == 1, n / 2 % 2 == 1, n / 4 % 2 == 1, n / 8 % 2 == 1,
               n / 0x10 % 2 == 1, n / 0x20 % 2 == 1, n / 0x40 % 2 == 1, n / 0x80 % 2 == 1)
  }

  // The number that a byte's bits make.
  function ByteValue(b: Byte): nat {
    (if b & 1 != 0 then 1 else 0) + (if b & 2 != 0 then 2 else 0) + (if b & 4 != 0 then 4 else 0) +
    (if b & 8 != 0 then 8 else 0) + (if b & 0x10 != 0 then 0x10 else 0) + (if b & 0x20 != 0 then 0x20 else 0) +
    (if b & 0x40 != 0 then 0x40 else 0) + (if b & 0x80 != 0 then 0x80 else 0)
  }

  // The count's eight bytes, most significant first.
  function CountBytes(n: nat): (b: seq<Byte>)
    ensures |b| == 8
  {
    [ByteOf(n / 0x100_0000_0000_0000), ByteOf(n / 0x1_0000_0000_0000), ByteOf(n / 0x100_0000_0000), ByteOf(n / 0x1_0000_0000),
     ByteOf(n / 0x100_0000), ByteOf(n / 0x1_0000), ByteOf(n / 0x100), ByteOf(n)]
  }

  // Bytes as a number in base 256, most significant byte first.
  function Numeral(b: seq<Byte>): nat {
    if b == [] then 0 else 0x100 * Numeral(b[..|b|-1]) + ByteValue(b[|b|-1])
  }

  lemma ByteIsDigit(n: nat)
    ensures ByteValue(ByteOf(n)) == n % 0x100
  {
    hide ByteValue, ByteOfBits;
    BitsOfByte(n % 2 == 1, n / 2 % 2 == 1, n / 4 % 2 == 1, n / 8 % 2 == 1,
               n / 0x10 % 2 == 1, n / 0x20 % 2 == 1, n / 0x40 % 2 == 1, n / 0x80 % 2 == 1);
    EightBits(n);
  }

  lemma BitsOfByte(b0: bool, b1: bool, b2: bool, b3: bool, b4: bool, b5: bool, b6: bool, b7: bool)
    ensures ByteValue(ByteOfBits(b0, b1, b2, b3, b4, b5, b6, b7)) ==
      (if b0 then 1 else 0) + (if b1 then 2 else 0) + (if b2 then 4 else 0) + (if b3 then 8 else 0) +
      (if b4 then 0x10 else 0) + (if b5 then 0x20 else 0) + (if b6 then 0x40 else 0) + (if b7 then 0x80 else 0)
  {
  }

  function Bit(n: nat): nat { if n % 2 == 1 then 1 else 0 }

  lemma EightBits(n: nat)
    ensures n % 0x100 == Bit(n) + 2 * Bit(n / 2) + 4 * Bit(n / 4) + 8 * Bit(n / 8) + 0x10 * Bit(n / 0x10) +
      0x20 * Bit(n / 0x20) + 0x40 * Bit(n / 0x40) + 0x80 * Bit(n / 0x80)
  {
    LastBit8(n);
    LastBit7(n / 2);
    LastBit6(n / 4);
    LastBit5(n / 8);
    LastBit4(n / 0x10);
    LastBit3(n / 0x20);
    LastBit2(n / 0x40);
    hide Bit;
    Halves(n);
  }

  lemma Halves(n: nat)
    ensures n / 2 / 2 == n / 4 && n / 4 / 2 == n / 8 && n / 8 / 2 == n / 0x10 && n / 0x10 / 2 == n / 0x20
    ensures n / 0x20 / 2 == n / 0x40 && n / 0x40 / 2 == n / 0x80 && n / 0x80 % 2 == Bit(n / 0x80)
  {
  }

  lemma LastBit8(n: nat)
    ensures n % 0x100 == Bit(n) + 2 * (n / 2 % 0x80)
  {
  }

  lemma LastBit7(n: nat)
    ensures n % 0x80 == Bit(n) + 2 * (n / 2 % 0x40)
  {
  }

  lemma LastBit6(n: nat)
    ensures n % 0x40 == Bit(n) + 2 * (n / 2 % 0x20)
  {
  }

  lemma LastBit5(n: nat)
    ensures n % 0x20 == Bit(n) + 2 * (n / 2 % 0x10)
  {
  }

  lemma LastBit4(n: nat)
    ensures n % 0x10 == Bit(n) + 2 * (n / 2 % 8)
  {
  }

  lemma LastBit3(n: nat)
    ensures n % 8 == Bit(n) + 2 * (n / 2 % 4)
  {
  }

  lemma LastBit2(n: nat)
    ensures n % 4 == Bit(n) + 2 * (n / 2 % 2)
  {
  }

  lemma NumeralOfMore(b: seq<Byte>, n: nat)
    requires Numeral(b) == n / 0x100
    ensures Numeral(b + [ByteOf(n)]) == n
  {
    ByteIsDigit(n);
    assert (b + [ByteOf(n)])[..|b|] == b;
  }

  // The count's bytes are its numeral.
  lemma CountBytesSpell(n: nat)
    requires n < COUNT_RANGE
    ensures Numeral(CountBytes(n)) == n
  {
    hide Numeral, ByteOf;
    var n1, n2, n3 := n / 0x100, n / 0x1_0000, n / 0x100_0000;
    var n4, n5, n6, n7 := n / 0x1_0000_0000, n / 0x100_0000_0000, n / 0x1_0000_0000_0000, n / 0x100_0000_0000_0000;
    NumeralOfNothing();
    NumeralOfMore([], n7);
    assert [] + [ByteOf(n7)] == [ByteOf(n7)];
    NumeralOfMore([ByteOf(n7)], n6);
    NumeralOfMore([ByteOf(n7)] + [ByteOf(n6)], n5);
    NumeralOfMore([ByteOf(n7)] + [ByteOf(n6)] + [ByteOf(n5)], n4);
    NumeralOfMore([ByteOf(n7)] + [ByteOf(n6)] + [ByteOf(n5)] + [ByteOf(n4)], n3);
    NumeralOfMore([ByteOf(n7)] + [ByteOf(n6)] + [ByteOf(n5)] + [ByteOf(n4)] + [ByteOf(n3)], n2);
    NumeralOfMore([ByteOf(n7)] + [ByteOf(n6)] + [ByteOf(n5)] + [ByteOf(n4)] + [ByteOf(n3)] + [ByteOf(n2)], n1);
    NumeralOfMore([ByteOf(n7)] + [ByteOf(n6)] + [ByteOf(n5)] + [ByteOf(n4)] + [ByteOf(n3)] + [ByteOf(n2)] + [ByteOf(n1)], n);
    assert CountBytes(n) ==
      [ByteOf(n7)] + [ByteOf(n6)] + [ByteOf(n5)] + [ByteOf(n4)] + [ByteOf(n3)] + [ByteOf(n2)] + [ByteOf(n1)] + [ByteOf(n)];
  }

  lemma NumeralOfNothing()
    ensures Numeral([]) == 0
  {
  }

  // The message that is cut into chunks.
  function Joined(chunks: seq<seq<Byte>>): seq<Byte> {
    if chunks == [] then [] else Joined(chunks[..|chunks|-1]) + chunks[|chunks|-1]
  }

  // How many zero bytes the padding of an n-byte message holds.
  function PadZeros(n: nat): nat { (119 - n % 64) % 64 }

  // A one bit, zeros, and the eight bytes of the bit count.
  function Padding(n: nat, count: seq<Byte>): seq<Byte> {
    [0x80] + Zeros(PadZeros(n)) + count
  }

  // The padded length is a multiple of 64 bytes, with as few zeros as possible.
  lemma PaddingFillsBlocks(message: seq<Byte>, count: seq<Byte>, k: nat)
    requires |count| == 8
    ensures |message + Padding(|message|, count)| % 64 == 0
    ensures (|message| + 1 + k + 8) % 64 == 0 ==> PadZeros(|message|) <= k
  {
    var n := |message|;
    assert n == n / 64 * 64 + n % 64;
  }

  // ----- how appending moves bytes between the buffer and the hashed part

  lemma AppendWithinBlock(message: seq<Byte>, piece: seq<Byte>)
    requires |message| % 64 + |piece| < 64
    ensures Whole(message + piece) == Whole(message) && Rest(message + piece) == Rest(message) + piece
  {
    assert |message + piece| / 64 == |message| / 64;
  }

  lemma AppendToFullBlock(message: seq<Byte>, piece: seq<Byte>)
    requires |message| % 64 + |piece| == 64
    ensures Whole(message + piece) == Whole(message) + (Rest(message) + piece) && Rest(message + piece) == []
    ensures |message + piece| % 64 == 0
  {
    assert |message + piece| / 64 == |message| / 64 + 1;
    assert Whole(message + piece) == message + piece;
  }

  // The last block, or the last two, when the message is padded.
  lemma PaddedInOneBlock(message: seq<Byte>, count: seq<Byte>)
    requires |count| == 8 && |message| % 64 < 56
    ensures message + Padding(|message|, count) ==
      Whole(message) + (Rest(message) + [0x80] + Zeros(55 - |message| % 64) + count)
  {
    assert message == Whole(message) + Rest(message);
  }

  lemma PaddedInTwoBlocks(message: seq<Byte>, count: seq<Byte>)
    requires |count| == 8 && |message| % 64 >= 56
    ensures message + Padding(|message|, count) ==
      Whole(message) + (Rest(message) + [0x80] + Zeros(63 - |message| % 64)) + (Zeros(56) + count)
  {
    assert message == Whole(message) + Rest(message);
    assert Zeros(PadZeros(|message|)) == Zeros(63 - |message| % 64) + Zeros(56);
  }

  // ----- memory

  // bcopy and memcpy between different arrays.
  method CopyBytes(source: array<Byte>, from: nat, target: array<Byte>, at: nat, n: nat)
    requires source != target && from + n <= source.Length && at + n <= target.Length
    modifies target
    ensures target[..] == old(target[..at]) + source[from..from+n] + old(target[at+n..])
  {
    forall i | 0 <= i < n {
      target[at+i] := source[from+i];
    }
  }

  // bzero.
  method ClearBytes(target: array<Byte>, at: nat, n: nat)
    requires at + n <= target.Length
    modifies target
    ensures target[..] == old(target[..at]) + Zeros(n) + old(target[at+n..])
  {
    forall i | 0 <= i < n {
      target[at+i] := 0;
    }
  }
}
