// SHA-256 as section 6.2 of FIPS 180-4 states it, and the two versions of the transform in
// src/pextlib1.0/sha2.c.
module Sha256 {
  import opened CTypes
  import opened BlockHash

  type Word = bv32

  // Addition modulo 2^32.
  function Add(x: Word, y: Word): Word { x + y }

  // ----- section 4.1.2: the six functions

  function R(n: bv32, x: Word): Word
    requires n < 32
  {
    x >> n
  }

  function S32(n: bv32, x: Word): Word
    requires n < 32
  {
    (x >> n) | (x << (32 - n))
  }

  function Ch(x: Word, y: Word, z: Word): Word { (x & y) ^ (!x & z) }

  function Maj(x: Word, y: Word, z: Word): Word { (x & y) ^ (x & z) ^ (y & z) }

  function BigSigma0(x: Word): Word { S32(2, x) ^ S32(13, x) ^ S32(22, x) }

  function BigSigma1(x: Word): Word { S32(6, x) ^ S32(11, x) ^ S32(25, x) }

  function SmallSigma0(x: Word): Word { S32(7, x) ^ S32(18, x) ^ R(3, x) }

  function SmallSigma1(x: Word): Word { S32(17, x) ^ S32(19, x) ^ R(10, x) }

  lemma AddCommutes(x: Word, y: Word)
    ensures Add(x, y) == Add(y, x)
  {
  }

  lemma AddAssociates(x: Word, y: Word, z: Word)
    ensures Add(Add(x, y), z) == Add(x, Add(y, z))
  {
    assert Add(x, y) == x + y && Add(y, z) == y + z;
    assert Add(x + y, z) == x + y + z && Add(x, y + z) == x + y + z;
  }

  // ----- section 4.2.2: the constants

  // The constants in rows of eight.
  function KRow(i: nat): (k: seq<Word>)
    ensures |k| == 8
  {
    match i
    case 0 => [0x428a2f98, 0x71374491, 0xb5c0fbcf, 0xe9b5dba5, 0x3956c25b, 0x59f111f1, 0x923f82a4, 0xab1c5ed5]
    case 1 => [0xd807aa98, 0x12835b01, 0x243185be, 0x550c7dc3, 0x72be5d74, 0x80deb1fe, 0x9bdc06a7, 0xc19bf174]
    case 2 => [0xe49b69c1, 0xefbe4786, 0x0fc19dc6, 0x240ca1cc, 0x2de92c6f, 0x4a7484aa, 0x5cb0a9dc, 0x76f988da]
    case 3 => [0x983e5152, 0xa831c66d, 0xb00327c8, 0xbf597fc7, 0xc6e00bf3, 0xd5a79147, 0x06ca6351, 0x14292967]
    case 4 => [0x27b70a85, 0x2e1b2138, 0x4d2c6dfc, 0x53380d13, 0x650a7354, 0x766a0abb, 0x81c2c92e, 0x92722c85]
    case 5 => [0xa2bfe8a1, 0xa81a664b, 0xc24b8b70, 0xc76c51a3, 0xd192e819, 0xd6990624, 0xf40e3585, 0x106aa070]
    case 6 => [0x19a4c116, 0x1e376c08, 0x2748774c, 0x34b0bcb5, 0x391c0cb3, 0x4ed8aa4a, 0x5b9cca4f, 0x682e6ff3]
    case _ => [0x748f82ee, 0x78a5636f, 0x84c87814, 0x8cc70208, 0x90befffa, 0xa4506ceb, 0xbef9a3f7, 0xc67178f2]
  }

  function KRows(n: nat): (k: seq<Word>)
    ensures |k| == 8 * n
  {
    if n == 0 then [] else KRows(n - 1) + KRow(n - 1)
  }

  function K256(): (k: seq<Word>)
    ensures |k| == 64
  {
    KRows(8)
  }

  lemma {:induction false} KRowsAt(n: nat, i: nat, j: nat)
    requires i < n && j < 8
    ensures KRows(n)[8 * i + j] == KRow(i)[j]
  {
    hide KRow;
    if i < n - 1 {
      KRowsAt(n - 1, i, j);
    }
  }

  // ----- section 6.2: the hash computation

  // The eight working variables, and also the eight words of a hash value.
  datatype Vars = Vars(a: Word, b: Word, c: Word, d: Word, e: Word, f: Word, g: Word, h: Word)

  const INITIAL := Vars(0x6a09e667, 0xbb67ae85, 0x3c6ef372, 0xa54ff53a, 0x510e527f, 0x9b05688c, 0x1f83d9ab, 0x5be0cd19)

  // A big-endian word.
  function WordOf(b0: Byte, b1: Byte, b2: Byte, b3: Byte): Word {
    (b0 as bv32 << 24) | (b1 as bv32 << 16) | (b2 as bv32 << 8) | (b3 as bv32)
  }

  function MessageWord(m: Block, t: nat): Word
    requires t < 16
  {
    WordOf(m[4*t], m[4*t+1], m[4*t+2], m[4*t+3])
  }

  // Step 1: the message schedule of 64 words.
  function Schedule(m: Block, t: nat): Word
    requires t < 64
  {
    if t < 16 then MessageWord(m, t)
    else
      Add(Add(Add(SmallSigma1(Schedule(m, t - 2)), Schedule(m, t - 7)), SmallSigma0(Schedule(m, t - 15))),
          Schedule(m, t - 16))
  }

  // One turn of step 3.
  function Round(v: Vars, k: Word, w: Word): Vars {
    var t1 := Add(Add(Add(Add(v.h, BigSigma1(v.e)), Ch(v.e, v.f, v.g)), k), w);
    var t2 := Add(BigSigma0(v.a), Maj(v.a, v.b, v.c));
    Vars(Add(t1, t2), v.a, v.b, v.c, Add(v.d, t1), v.e, v.f, v.g)
  }

  // Steps 2 and 3 for the first t turns.
  function Rounds(start: Vars, m: Block, t: nat): Vars
    requires t <= 64
  {
    if t == 0 then start else Round(Rounds(start, m, t - 1), K256()[t-1], Schedule(m, t - 1))
  }

  // Step 4.
  function AddVars(x: Vars, y: Vars): Vars {
    Vars(Add(x.a, y.a), Add(x.b, y.b), Add(x.c, y.c), Add(x.d, y.d),
         Add(x.e, y.e), Add(x.f, y.f), Add(x.g, y.g), Add(x.h, y.h))
  }

  // The next intermediate hash value.
  function Transform(state: Vars, m: Block): Vars { AddVars(state, Rounds(state, m, 64)) }

  // ----- words in memory

  // The bytes of a word in the byte order of the machine.
  function HostBytes(w: Word, big: bool): (b: seq<Byte>)
    ensures |b| == 4
  {
    var b0, b1, b2, b3 := (w >> 24) as bv8, ((w >> 16) & 0xff) as bv8, ((w >> 8) & 0xff) as bv8, (w & 0xff) as bv8;
    if big then [b0, b1, b2, b3] else [b3, b2, b1, b0]
  }

  function HostWord(b: seq<Byte>, big: bool): Word
    requires |b| == 4
  {
    if big then WordOf(b[0], b[1], b[2], b[3]) else WordOf(b[3], b[2], b[1], b[0])
  }

  lemma WordOfItsBytes(w: Word)
    ensures WordOf((w >> 24) as bv8, ((w >> 16) & 0xff) as bv8, ((w >> 8) & 0xff) as bv8, (w & 0xff) as bv8) == w
  {
  }

  lemma HostWordReadsBack(w: Word, big: bool)
    ensures HostWord(HostBytes(w, big), big) == w
  {
    hide HostWord, HostBytes;
    if big {
      BigEndianReadsBack(w);
    } else {
      LittleEndianReadsBack(w);
    }
  }

  lemma BigEndianReadsBack(w: Word)
    ensures HostWord(HostBytes(w, true), true) == w
  {
    hide WordOf;
    WordOfItsBytes(w);
  }

  lemma LittleEndianReadsBack(w: Word)
    ensures HostWord(HostBytes(w, false), false) == w
  {
    hide WordOf;
    WordOfItsBytes(w);
  }

  // W256[i]: the context's buffer read as words.
  function BufferWord(buffer: seq<Byte>, i: nat, big: bool): Word
    requires |buffer| == 64 && i < 16
  {
    HostWord(buffer[4*i..4*i+4], big)
  }
}
