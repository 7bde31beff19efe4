// RMD160Init, RMD160Update and RMD160Final (src/pextlib1.0/rmd160.c) over any block transform.
module Rmd160 {
  import opened CTypes
  import opened BlockHash
  import Sha256

  type Word = bv32

  // The five words of the state.
  datatype State = State(a: Word, b: Word, c: Word, d: Word, e: Word)

  const INITIAL := State(0x67452301, 0xEFCDAB89, 0x98BADCFE, 0x10325476, 0xC3D2E1F0)

  // The lowest k bytes of a number, least significant first.
  function BytesLE(n: nat, k: nat): (b: seq<Byte>)
    ensures |b| == k
  {
    if k == 0 then [] else [ByteOf(n)] + BytesLE(n / 0x100, k - 1)
  }

  // PUT_64BIT_LE.
  function CountBytesLE(n: nat): (b: seq<Byte>)
    ensures |b| == 8
  {
    BytesLE(n, 8)
  }

  // Bytes as a number in base 256, least significant byte first.
  function NumeralLE(b: seq<Byte>): nat {
    if b == [] then 0 else ByteValue(b[0]) + 0x100 * NumeralLE(b[1..])
  }

  function Pow256(k: nat): nat {
    if k == 0 then 1 else 0x100 * Pow256(k - 1)
  }

  lemma {:induction false} BytesSpell(n: nat, k: nat)
    requires n < Pow256(k)
    ensures NumeralLE(BytesLE(n, k)) == n
  {
    if k > 0 {
      hide ByteOf, ByteValue;
      ByteIsDigit(n);
      BytesSpell(n / 0x100, k - 1);
      assert BytesLE(n, k)[1..] == BytesLE(n / 0x100, k - 1);
    }
  }

  // The count's bytes are its numeral.
  lemma CountBytesSpell(n: nat)
    requires n < COUNT_RANGE
    ensures NumeralLE(CountBytesLE(n)) == n
  {
    hide BytesLE, NumeralLE;
    assert Pow256(4) == 0x1_0000_0000;
    assert Pow256(8) == COUNT_RANGE;
    BytesSpell(n, 8);
  }

  // What the padding of a message ends with.
  lemma PaddedShape(message: seq<Byte>, count: nat)
    requires count < COUNT_RANGE
    ensures var p, n := message + Padding(|message|, CountBytesLE(count)), |message|;
      && |p| % 64 == 0 && n + 9 <= |p| < n + 9 + 64
      && p[..n] == message && p[n] == 0x80
      && (forall i :: n < i < |p| - 8 ==> p[i] == 0)
      && NumeralLE(p[|p| - 8..]) == count
  {
    hide NumeralLE, CountBytesLE;
    var size := CountBytesLE(count);
    PaddingFillsBlocks(message, size, 0);
    CountBytesSpell(count);
    assert (message + Padding(|message|, size))[|message + Padding(|message|, size)| - 8..] == size;
  }

  // The initial state, written out: the nibbles count up and down again.
  lemma InitialBytes()
    ensures DigestBytes(INITIAL) ==
      [0x01, 0x23, 0x45, 0x67, 0x89, 0xab, 0xcd, 0xef, 0xfe, 0xdc, 0xba, 0x98, 0x76, 0x54, 0x32, 0x10,
       0xf0, 0xe1, 0xd2, 0xc3]
  {
  }

  // PUT_32BIT_LE of every word.
  function DigestBytes(s: State): (d: seq<Byte>)
    ensures |d| == 20
  {
    Sha256.HostBytes(s.a, false) + Sha256.HostBytes(s.b, false) + Sha256.HostBytes(s.c, false) +
    Sha256.HostBytes(s.d, false) + Sha256.HostBytes(s.e, false)
  }

  // The hash value after a message of which a number of bits has been counted.
  function HashWithCount(transform: (State, Block) -> State, message: seq<Byte>, count: nat): seq<Byte> {
    DigestBytes(Fold(transform, INITIAL, message + Padding(|message|, CountBytesLE(count))))
  }

  // The hash of a message under a block transform.
  function Hash(transform: (State, Block) -> State, message: seq<Byte>): seq<Byte> {
    HashWithCount(transform, message, 8 * |message| % COUNT_RANGE)
  }

  // The number of bits an update adds is computed in 32 bits: the count is right exactly for
  // updates below 2^29 bytes.
  lemma CountIsRightBelowLimit(count: nat, len: nat)
    requires count < COUNT_RANGE && len < UINT_RANGE
    ensures (count + 8 * len % UINT_RANGE) % COUNT_RANGE == (count + 8 * len) % COUNT_RANGE <==> len < 0x2000_0000
  {
    var q, r := 8 * len / UINT_RANGE, 8 * len % UINT_RANGE;
    assert 8 * len == q * UINT_RANGE + r;
    if len >= 0x2000_0000 {
      assert 1 <= q < 8;
    }
  }

  // What an update adds still tells how many bytes are buffered.
  lemma CountKeepsPosition(count: nat, n: nat, len: nat)
    requires count < COUNT_RANGE && count % 8 == 0 && count / 8 % 64 == n % 64
    ensures var c := (count + 8 * len % UINT_RANGE) % COUNT_RANGE;
      c % 8 == 0 && c / 8 % 64 == (n + len) % 64
  {
    var k, l := count / 8, len % 0x2000_0000;
    LowBits(len);
    var wrap := if count + 8 * l < COUNT_RANGE then 0 else 1;
    var c := count + 8 * l - wrap * COUNT_RANGE;
    SameRest(c, count + 8 * l, -wrap);
    assert c == 8 * (k + l - wrap * 0x2000_0000_0000_0000);
    SamePosition(c / 8, k, n, len, 0x0080_0000 * (len / 0x2000_0000) + wrap * 0x0080_0000_0000_0000);
  }

  lemma SameRest(x: int, y: int, a: int)
    requires x == y + a * COUNT_RANGE
    ensures x % COUNT_RANGE == y % COUNT_RANGE
  {
    var q, r := y / COUNT_RANGE, y % COUNT_RANGE;
    assert x == (q + a) * COUNT_RANGE + r;
  }

  lemma SamePosition(x: nat, k: nat, n: nat, len: nat, a: nat)
    requires x + 64 * a == k + len && k % 64 == n % 64
    ensures x % 64 == (n + len) % 64
  {
    var y, d := n + len, k / 64 - n / 64 - a;
    assert x == y + 64 * d;
    assert x == 64 * (y / 64 + d) + y % 64;
  }

  lemma LowBits(len: nat)
    ensures 8 * len % UINT_RANGE == 8 * (len % 0x2000_0000)
  {
    var q, r := len / 0x2000_0000, len % 0x2000_0000;
    assert 8 * len == q * UINT_RANGE + 8 * r;
  }

  // The bytes Final feeds before the count.
  function PaddingBlock(): (p: seq<Byte>)
    ensures |p| == 64 && p == [0x80] + Zeros(63)
  {
    [0x80] + Zeros(63)
  }

  lemma PaddingPieces(n: nat, count: seq<Byte>)
    requires |count| == 8
    ensures PadZeros(n) <= 63 && PaddingBlock()[..1 + PadZeros(n)] + count == Padding(n, count)
  {
  }

  class Context {
    const transform: (State, Block) -> State
    var state: State
    var count: nat
    const buffer: array<Byte>
    // Every byte passed to Update so far.
    ghost var message: seq<Byte>

    // State and buffer are those after message m.
    ghost predicate Holds(m: seq<Byte>)
      reads this`state, buffer
    {
      && buffer.Length == 64
      && state == Fold(transform, INITIAL, Whole(m))
      && buffer[..|m| % 64] == Rest(m)
    }

    ghost predicate Valid()
      reads this, buffer
    {
      && Holds(message)
      && count < COUNT_RANGE && count % 8 == 0 && count / 8 % 64 == |message| % 64
    }

    // RMD160Init.
    constructor (transform: (State, Block) -> State)
      ensures Valid() && message == [] && count == 0 && fresh(buffer) && this.transform == transform
    {
      this.transform := transform;
      state, count, message := INITIAL, 0, [];
      buffer := new Byte[64](_ => 0);
    }

    // Fill up a buffer in use and transform it.
    method Fill(input: array<Byte>, have: nat, ghost m: seq<Byte>)
      requires Holds(m) && input != buffer && have == |m| % 64 && 64 - have <= input.Length
      modifies this`state, buffer
      ensures Holds(m + input[..64-have]) && |m + input[..64-have]| % 64 == 0
    {
      hide Fold, Whole, Rest;
      ghost var piece := input[..64-have];
      AppendToFullBlock(m, piece);
      ghost var block := Rest(m) + piece;
      CopyBytes(input, 0, buffer, have, 64 - have);
      assert input[0..0+(64-have)] == piece;
      assert buffer[..] == block;
      FoldOneMore(transform, INITIAL, Whole(m), block);
      state := transform(state, buffer[..]);
    }

    // Transform a block of the caller's data; the buffer is empty.
    method ProcessBlock(input: array<Byte>, off: nat, ghost m: seq<Byte>)
      requires Holds(m) && |m| % 64 == 0 && input != buffer && off + 64 <= input.Length
      modifies this`state
      ensures Holds(m + input[off..off+64]) && |m + input[off..off+64]| % 64 == 0
    {
      hide Fold, Whole, Rest;
      var piece := input[off..off+64];
      AppendToFullBlock(m, piece);
      assert Rest(m) + piece == piece;
      FoldOneMore(transform, INITIAL, Whole(m), piece);
      state := transform(state, piece);
    }

    // Keep the bytes that do not fill a block.
    method Keep(input: array<Byte>, off: nat, n: nat, have: nat, ghost m: seq<Byte>)
      requires Holds(m) && have == |m| % 64 && have + n < 64 && input != buffer && off + n <= input.Length
      modifies buffer
      ensures Holds(m + input[off..off+n])
    {
      hide Fold, Whole, Rest;
      AppendWithinBlock(m, input[off..off+n]);
      CopyBytes(input, off, buffer, have, n);
    }

    // The blocks: top up the buffer, then transform whole blocks of the input.
    method ProcessBlocks(input: array<Byte>, len: nat, have: nat, ghost m: seq<Byte>) returns (off: nat)
      requires Holds(m) && have == |m| % 64 && 64 - have <= len <= input.Length && input != buffer
      modifies this`state, buffer
      ensures off <= len < off + 64 && Holds(m + input[..off]) && |m + input[..off]| % 64 == 0
    {
      hide Holds;
      off := 0;
      assert m + input[..0] == m;
      if have != 0 {
        Fill(input, have, m);
        off := 64 - have;
      }
      while off + 64 <= len
        invariant off <= len && Holds(m + input[..off]) && |m + input[..off]| % 64 == 0
      {
        ProcessBlock(input, off, m + input[..off]);
        assert m + input[..off] + input[off..off+64] == m + input[..off+64];
        off := off + 64;
      }
    }

    // RMD160Update. From 64 bytes below the limit on, the end of the next block does not fit 32 bits.
    method Update(input: array<Byte>, len: nat)
      requires Valid() && input != buffer && len <= input.Length && len < UINT_RANGE - 64
      modifies this, buffer
      ensures Valid() && message == old(message) + input[..len]
      ensures count == (old(count) + 8 * len % UINT_RANGE) % COUNT_RANGE
    {
      hide Holds;
      CountKeepsPosition(count, |message|, len);
      var have := count / 8 % 64;
      var need := 64 - have;
      count := (count + 8 * len % UINT_RANGE) % COUNT_RANGE;
      var off := 0;
      ghost var m := message;
      if len >= need {
        off := ProcessBlocks(input, len, have, m);
        have := 0;
      }
      assert m + input[..0] == m;
      if off < len {
        Keep(input, off, len - off, have, m + input[..off]);
        assert m + input[..off] + input[off..len] == m + input[..len];
      }
      message := m + input[..len];
    }

    // Feeds the padding and the count.
    method FeedPadding(size: seq<Byte>)
      requires Valid() && |size| == 8
      modifies this, buffer
      ensures Valid() && message == old(message) + Padding(|old(message)|, size)
    {
      hide Padding, PaddingBlock, PadZeros, Holds;
      var padlen := 64 - count / 8 % 64;
      if padlen < 1 + 8 {
        padlen := padlen + 64;
      }
      PaddingLength(|message|);
      PaddingPieces(|message|, size);
      var pad := new Byte[64](i requires 0 <= i < 64 => PaddingBlock()[i]);
      var bytes := new Byte[8](i requires 0 <= i < 8 => size[i]);
      assert pad[..] == PaddingBlock() && bytes[..8] == size;
      assert pad[..padlen-8] == PaddingBlock()[..padlen-8];
      Update(pad, padlen - 8);
      Update(bytes, 8);
    }

    // RMD160Final: the context is cleared.
    method Final() returns (digest: seq<Byte>)
      requires Valid()
      modifies this, buffer
      ensures digest == HashWithCount(transform, old(message), old(count))
      ensures state == State(0, 0, 0, 0, 0) && count == 0 && buffer[..] == Zeros(64)
    {
      hide CountBytesLE, DigestBytes, Padding;
      ghost var m := message;
      var size := CountBytesLE(count);
      FeedPadding(size);
      WholeMessage(m, size);
      digest := DigestBytes(state);
      Clear();
    }

    method Clear()
      requires buffer.Length == 64
      modifies this, buffer
      ensures state == State(0, 0, 0, 0, 0) && count == 0 && buffer[..] == Zeros(64)
    {
      ClearBytes(buffer, 0, 64);
      state, count, message := State(0, 0, 0, 0, 0), 0, [];
    }

    lemma WholeMessage(m: seq<Byte>, size: seq<Byte>)
      requires |size| == 8 && Holds(m + Padding(|m|, size))
      ensures state == Fold(transform, INITIAL, m + Padding(|m|, size))
    {
      hide Fold, Padding, Rest;
      PaddingFillsBlocks(m, size, 0);
      assert Whole(m + Padding(|m|, size)) == m + Padding(|m|, size);
    }
  }

  lemma PaddingLength(n: nat)
    ensures var p := 64 - n % 64; (if p < 9 then p + 64 else p) - 8 == 1 + PadZeros(n)
  {
  }

  // The bits that the updates of a message count.
  function Counted(chunks: seq<seq<Byte>>): (n: nat)
    ensures n < COUNT_RANGE
  {
    if chunks == [] then 0
    else (Counted(chunks[..|chunks|-1]) + 8 * |chunks[|chunks|-1]| % UINT_RANGE) % COUNT_RANGE
  }

  // What they lose, in units of 2^32 bits.
  function Lost(chunks: seq<seq<Byte>>): nat {
    if chunks == [] then 0 else Lost(chunks[..|chunks|-1]) + |chunks[|chunks|-1]| / 0x2000_0000
  }

  lemma {:induction false} CountedAndLost(chunks: seq<seq<Byte>>)
    ensures (Counted(chunks) + UINT_RANGE * Lost(chunks)) % COUNT_RANGE == 8 * |Joined(chunks)| % COUNT_RANGE
  {
    if chunks != [] {
      var front, n := chunks[..|chunks|-1], |chunks[|chunks|-1]|;
      CountedAndLost(front);
      LowBits(n);
      OneMoreCounted(Counted(front), Lost(front), |Joined(front)|, n);
    }
  }

  lemma OneMoreCounted(count: nat, lost: nat, length: nat, n: nat)
    requires (count + UINT_RANGE * lost) % COUNT_RANGE == 8 * length % COUNT_RANGE
    ensures ((count + 8 * (n % 0x2000_0000)) % COUNT_RANGE + UINT_RANGE * (lost + n / 0x2000_0000)) % COUNT_RANGE ==
            8 * (length + n) % COUNT_RANGE
  {
    var q, h := n / 0x2000_0000, n % 0x2000_0000;
    LengthSplits(n);
    var x, y := count + UINT_RANGE * lost, 8 * length;
    var a := x / COUNT_RANGE - y / COUNT_RANGE;
    DifferBy(x, y);
    var b := (count + 8 * h) / COUNT_RANGE;
    Quotient(count + 8 * h);
    SameRest((count + 8 * h) % COUNT_RANGE + UINT_RANGE * (lost + q), 8 * (length + n), a - b);
  }

  lemma LengthSplits(n: nat)
    ensures 8 * n == UINT_RANGE * (n / 0x2000_0000) + 8 * (n % 0x2000_0000)
  {
  }

  lemma Quotient(x: nat)
    ensures x == x / COUNT_RANGE * COUNT_RANGE + x % COUNT_RANGE
  {
  }

  lemma DifferBy(x: nat, y: nat)
    requires x % COUNT_RANGE == y % COUNT_RANGE
    ensures x == y + (x / COUNT_RANGE - y / COUNT_RANGE) * COUNT_RANGE
  {
    Quotient(x);
    Quotient(y);
  }

  // The count is right exactly if what the updates lost is a multiple of 2^64 bits, in particular when no update has
  // 2^29 bytes or more.
  lemma CountedExactly(chunks: seq<seq<Byte>>)
    ensures Counted(chunks) == 8 * |Joined(chunks)| % COUNT_RANGE <==> Lost(chunks) % UINT_RANGE == 0
    ensures (forall c :: c in chunks ==> |c| < 0x2000_0000) ==> Lost(chunks) == 0
  {
    CountedAndLost(chunks);
    if forall c :: c in chunks ==> |c| < 0x2000_0000 {
      NothingLost(chunks);
    }
    RightExactly(Counted(chunks), Lost(chunks), 8 * |Joined(chunks)| % COUNT_RANGE);
  }

  // One update of 2^29 bytes or more, of any content.
  lemma LongUpdateIsMiscounted(input: seq<Byte>)
    requires 0x2000_0000 <= |input| < UINT_RANGE
    ensures Counted([input]) != 8 * |Joined([input])| % COUNT_RANGE
  {
    var chunks := [input];
    assert chunks[..|chunks| - 1] == [] && chunks[|chunks| - 1] == input;
    assert Lost(chunks) == |input| / 0x2000_0000;
    CountedExactly(chunks);
  }

  lemma RightExactly(count: nat, lost: nat, right: nat)
    requires count < COUNT_RANGE && right < COUNT_RANGE && (count + UINT_RANGE * lost) % COUNT_RANGE == right
    ensures count == right <==> lost % UINT_RANGE == 0
  {
    var q, r := lost / UINT_RANGE, lost % UINT_RANGE;
    assert count + UINT_RANGE * lost == count + UINT_RANGE * r + q * COUNT_RANGE;
    SameRest(count + UINT_RANGE * lost, count + UINT_RANGE * r, q);
    if count + UINT_RANGE * r >= COUNT_RANGE {
      SameRest(count + UINT_RANGE * r - COUNT_RANGE, count + UINT_RANGE * r, -1);
    }
  }

  lemma {:induction false} NothingLost(chunks: seq<seq<Byte>>)
    requires forall c :: c in chunks ==> |c| < 0x2000_0000
    ensures Lost(chunks) == 0
  {
    if chunks != [] {
      assert chunks[|chunks|-1] in chunks;
      NothingLost(chunks[..|chunks|-1]);
    }
  }

  // One message in any number of pieces: the digest is the hash of the whole, if the count is right.
  method HashInChunks(transform: (State, Block) -> State, chunks: seq<seq<Byte>>) returns (digest: seq<Byte>)
    requires forall c :: c in chunks ==> |c| < UINT_RANGE - 64
    ensures digest == HashWithCount(transform, Joined(chunks), Counted(chunks))
    ensures Lost(chunks) % UINT_RANGE == 0 ==> digest == Hash(transform, Joined(chunks))
  {
    hide HashWithCount, Context.Valid;
    var context := new Context(transform);
    for i := 0 to |chunks|
      invariant context.Valid() && fresh(context) && fresh(context.buffer)
      invariant context.message == Joined(chunks[..i]) && context.count == Counted(chunks[..i])
    {
      var input := new Byte[|chunks[i]|](j requires 0 <= j < |chunks[i]| => chunks[i][j]);
      assert input[..|chunks[i]|] == chunks[i] && chunks[i] in chunks;
      assert chunks[..i+1][..i] == chunks[..i];
      context.Update(input, input.Length);
    }
    assert chunks[..|chunks|] == chunks;
    CountedExactly(chunks);
    digest := context.Final();
  }
}
