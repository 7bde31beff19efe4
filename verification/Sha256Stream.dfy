// SHA256_Init, SHA256_Update and SHA256_Final (src/pextlib1.0/sha2.c): however a message is cut into
// updates, the digest is that of sections 5.1.1 and 6.2 of FIPS 180-4.
module Sha256Stream {
  import opened CTypes
  import opened BlockHash
  import opened Sha256
  import opened Sha256Transform

  // The eight words of a hash value, most significant byte first.
  function DigestBytes(v: Vars): (d: seq<Byte>)
    ensures |d| == 32
  {
    HostBytes(v.a, true) + HostBytes(v.b, true) + HostBytes(v.c, true) + HostBytes(v.d, true) +
    HostBytes(v.e, true) + HostBytes(v.f, true) + HostBytes(v.g, true) + HostBytes(v.h, true)
  }

  // Section 5.1.1: the message and its padding, with the bit count as 64 bits.
  function Padded(message: seq<Byte>): seq<Byte> {
    message + Padding(|message|, CountBytes(8 * |message| % COUNT_RANGE))
  }

  // Section 6.2: the hash of a message.
  function Hash(message: seq<Byte>): seq<Byte> {
    DigestBytes(Fold(Transform, INITIAL, Padded(message)))
  }

  // Section 5.1.1 of FIPS 180-4 in full: the message, a one bit, the fewest zeros that fill the last block, and the
  // number of bits.
  lemma PaddedShape(message: seq<Byte>)
    ensures var p, n := Padded(message), |message|;
      && |p| % 64 == 0 && n + 9 <= |p| < n + 9 + 64
      && p[..n] == message && p[n] == 0x80
      && (forall i :: n < i < |p| - 8 ==> p[i] == 0)
      && Numeral(p[|p| - 8..]) == 8 * n % COUNT_RANGE
  {
    hide Numeral, CountBytes;
    var n := |message|;
    var count := CountBytes(8 * n % COUNT_RANGE);
    PaddingFillsBlocks(message, count, 0);
    CountBytesSpell(8 * n % COUNT_RANGE);
    assert Padded(message)[|Padded(message)| - 8..] == count;
  }

  // ----- byte order macros

  // REVERSE64 on the eight bytes of a value: halves, then bytes in pairs, then pairs.
  function Reverse64(b: seq<Byte>): (r: seq<Byte>)
    requires |b| == 8
    ensures |r| == 8
  {
    var t := b[4..] + b[..4];
    var u := [t[1], t[0], t[3], t[2], t[5], t[4], t[7], t[6]];
    [u[2], u[3], u[0], u[1], u[6], u[7], u[4], u[5]]
  }

  lemma Reverse64Reverses(b: seq<Byte>)
    requires |b| == 8
    ensures Reverse64(b) == [b[7], b[6], b[5], b[4], b[3], b[2], b[1], b[0]]
  {
  }

  // The eight bytes of a value as a store to memory lays them out.
  function HostBytes64(b: seq<Byte>, big: bool): seq<Byte>
    requires |b| == 8
  {
    if big then b else [b[7], b[6], b[5], b[4], b[3], b[2], b[1], b[0]]
  }

  // REVERSE32.
  function Reverse32(w: Word): Word {
    var t := (w >> 16) | (w << 16);
    ((t & 0xff00ff00) >> 8) | ((t & 0x00ff00ff) << 8)
  }

  // A reversed word stored on a little-endian machine lies in memory most significant byte first.
  lemma Reverse32Stores(w: Word)
    ensures HostBytes(Reverse32(w), false) == HostBytes(w, true)
  {
  }

  lemma SlicesJoin(s: seq<Byte>, i: nat, j: nat, k: nat)
    requires i <= j <= k <= |s|
    ensures s[i..k] == s[i..j] + s[j..k]
  {
  }

  // ----- the context

  class Context {
    const state: array<Word>
    const buffer: array<Byte>
    var bitcount: nat
    // The byte order of the machine, and which version of the transform was compiled.
    const big: bool
    const unrolled: bool
    // Every byte passed to Update so far.
    ghost var message: seq<Byte>

    ghost predicate Valid()
      reads this, state, buffer
    {
      && state.Length == 8 && buffer.Length == 64
      && bitcount == 8 * |message| % COUNT_RANGE
      && StateVars(state[..]) == Fold(Transform, INITIAL, Whole(message))
      && buffer[..|message| % 64] == Rest(message)
    }

    // SHA256_Init.
    constructor (big: bool, unrolled: bool)
      ensures Valid() && message == [] && fresh(state) && fresh(buffer)
      ensures this.big == big && this.unrolled == unrolled
    {
      this.big, this.unrolled := big, unrolled;
      state := new Word[8] [0x6a09e667, 0xbb67ae85, 0x3c6ef372, 0xa54ff53a, 0x510e527f, 0x9b05688c, 0x1f83d9ab, 0x5be0cd19];
      buffer := new Byte[64](_ => 0);
      bitcount, message := 0, [];
      new;
      assert state[..] == [0x6a09e667, 0xbb67ae85, 0x3c6ef372, 0xa54ff53a, 0x510e527f, 0x9b05688c, 0x1f83d9ab, 0x5be0cd19];
    }

    // SHA256_Transform, in the version that was compiled.
    method RunTransform(data: array<Byte>, from: nat)
      requires state.Length == 8 && buffer.Length == 64 && from + 64 <= data.Length && (data == buffer ==> from == 0)
      modifies state, buffer
      ensures StateVars(state[..]) == Transform(old(StateVars(state[..])), old(BlockAt(data[..], from)))
    {
      if unrolled {
        TransformUnrolled(state, buffer, data, from, big);
      } else {
        TransformRolled(state, buffer, data, from, big);
      }
    }

    // The bytes fit into the buffer with room to spare.
    method Keep(data: array<Byte>, from: nat, n: nat, used: nat)
      requires Valid() && data != buffer && from + n <= data.Length && used == |message| % 64 && used + n < 64
      modifies this`bitcount, this`message, buffer
      ensures Valid() && message == old(message) + data[from..from+n]
    {
      hide Fold, Whole, Rest;
      ghost var piece := data[from..from+n];
      AppendWithinBlock(message, piece);
      CountAdds(bitcount, |message|, n);
      CopyBytes(data, from, buffer, used, n);
      bitcount := (bitcount + 8 * n) % COUNT_RANGE;
      message := message + piece;
    }

    // The buffer becomes a whole block, which is transformed.
    method Fill(data: array<Byte>, from: nat, used: nat)
      requires Valid() && data != buffer && used == |message| % 64 && from + (64 - used) <= data.Length
      modifies this`bitcount, this`message, state, buffer
      ensures Valid() && message == old(message) + data[from..from+(64-used)] && |message| % 64 == 0
    {
      hide Fold, Whole, Rest, Transform;
      ghost var piece := data[from..from+(64-used)];
      AppendToFullBlock(message, piece);
      CountAdds(bitcount, |message|, 64 - used);
      ghost var block := Rest(message) + piece;
      CopyBytes(data, from, buffer, used, 64 - used);
      assert BlockAt(buffer[..], 0) == block;
      FoldOneMore(Transform, INITIAL, Whole(message), block);
      bitcount := (bitcount + 8 * (64 - used)) % COUNT_RANGE;
      message := message + piece;
      RunTransform(buffer, 0);
    }

    // Process a block of the caller's data: the buffer is empty.
    method ProcessBlock(data: array<Byte>, from: nat)
      requires Valid() && data != buffer && |message| % 64 == 0 && from + 64 <= data.Length
      modifies this`bitcount, this`message, state, buffer
      ensures Valid() && message == old(message) + data[from..from+64] && |message| % 64 == 0
    {
      hide Fold, Whole, Rest, Transform;
      ghost var piece := data[from..from+64];
      AppendToFullBlock(message, piece);
      CountAdds(bitcount, |message|, 64);
      assert Rest(message) + piece == piece == BlockAt(data[..], from);
      FoldOneMore(Transform, INITIAL, Whole(message), piece);
      RunTransform(data, from);
      bitcount := (bitcount + 8 * 64) % COUNT_RANGE;
      message := message + piece;
    }

    // How many bytes the buffer holds, told by the bit count.
    method UsedSpace() returns (used: nat)
      requires Valid()
      ensures used == |message| % 64
    {
      BufferedFromCount(|message|);
      used := bitcount / 8 % 64;
    }

    // Whole blocks are transformed where the caller keeps them.
    method ProcessBlocks(data: array<Byte>, from: nat, len: nat) returns (at: nat, left: nat)
      requires Valid() && data != buffer && |message| % 64 == 0 && from + len <= data.Length
      modifies this`bitcount, this`message, state, buffer
      ensures Valid() && |message| % 64 == 0 && left < 64 && from <= at && at + left == from + len
      ensures message == old(message) + data[from..at]
    {
      hide Valid;
      at, left := from, len;
      while left >= 64
        invariant Valid() && |message| % 64 == 0 && from <= at <= from + len && at + left == from + len
        invariant message == old(message) + data[from..at]
      {
        ProcessBlock(data, at);
        assert data[from..at+64] == data[from..at] + data[at..at+64];
        at, left := at + 64, left - 64;
      }
    }

    // The first part of Update: top up a buffer that is in use.
    method TopUp(data: array<Byte>, from: nat, len: nat) returns (at: nat, left: nat)
      requires Valid() && data != buffer && from + len <= data.Length
      modifies this`bitcount, this`message, state, buffer
      ensures Valid() && from <= at && at + left == from + len
      ensures message == old(message) + data[from..at]
      ensures left > 0 ==> |message| % 64 == 0
    {
      hide Valid;
      at, left := from, len;
      var used := UsedSpace();
      if used > 0 {
        var free := 64 - used;
        if left >= free {
          Fill(data, from, used);
          at, left := from + free, len - free;
        } else {
          Keep(data, from, len, used);
          at, left := from + len, 0;
        }
      }
    }

    // SHA256_Update.
    method Update(data: array<Byte>, from: nat, len: nat)
      requires Valid() && data != buffer && from + len <= data.Length
      modifies this`bitcount, this`message, state, buffer
      ensures Valid() && message == old(message) + data[from..from+len]
    {
      hide Valid;
      if len == 0 {
        return;
      }
      var at, left := TopUp(data, from, len);
      if left == 0 {
        return;
      }
      ghost var topped, start := message, at;
      at, left := ProcessBlocks(data, at, left);
      SlicesJoin(data[..], from, start, at);
      assert message == old(message) + data[from..at];
      if left > 0 {
        Keep(data, at, left, 0);
        SlicesJoin(data[..], from, at, at + left);
      }
    }

    // The rest of the message and a one bit, zeros behind them up to position 56.
    method PadOneBlock(used: nat, ghost count: seq<Byte>) returns (ghost head: seq<Byte>)
      requires Valid() && used == |message| % 64 < 56 && |count| == 8
      modifies buffer
      ensures |head| == 56 && Whole(message) + (head + count) == message + Padding(|message|, count)
      ensures buffer[..56] == head
    {
      hide Fold, Whole, Rest, Transform, Padding, StateVars, PadZeros;
      ghost var rest := Rest(message);
      if used > 0 {
        buffer[used] := 0x80;
        assert buffer[..used+1] == rest + [0x80];
        ClearBytes(buffer, used + 1, 56 - (used + 1));
      } else {
        ClearBytes(buffer, 0, 56);
        buffer[0] := 0x80;
        assert rest == [];
      }
      PaddedInOneBlock(message, count);
      head := rest + [0x80] + Zeros(55 - used);
    }

    // The one bit and the zeros up to the end of the block, which is transformed; 56 zeros begin another.
    method PadTwoBlocks(used: nat, ghost count: seq<Byte>) returns (ghost done: seq<Byte>)
      requires Valid() && used == |message| % 64 >= 56 && |count| == 8
      modifies state, buffer
      ensures |done| % 64 == 0 && done + (Zeros(56) + count) == message + Padding(|message|, count)
      ensures StateVars(state[..]) == Fold(Transform, INITIAL, done) && buffer[..56] == Zeros(56)
    {
      hide Fold, Whole, Rest, Transform, Padding, StateVars, PadZeros;
      ghost var rest := Rest(message);
      buffer[used] := 0x80;
      assert buffer[..used+1] == rest + [0x80];
      if used + 1 < 64 {
        ClearBytes(buffer, used + 1, 64 - (used + 1));
      }
      PaddedInTwoBlocks(message, count);
      ghost var block := rest + [0x80] + Zeros(63 - used);
      assert BlockAt(buffer[..], 0) == block;
      done := Whole(message);
      FoldOneMore(Transform, INITIAL, done, block);
      RunTransform(buffer, 0);
      done := done + block;
      ClearBytes(buffer, 0, 56);
    }

    // Everything but the bit count goes into the buffer; done is what has been processed.
    method Pad(used: nat, ghost count: seq<Byte>) returns (ghost done: seq<Byte>, ghost head: seq<Byte>)
      requires Valid() && used == |message| % 64 && |count| == 8
      modifies state, buffer
      ensures |done| % 64 == 0 && |head| == 56 && done + (head + count) == message + Padding(|message|, count)
      ensures StateVars(state[..]) == Fold(Transform, INITIAL, done) && buffer[..56] == head
    {
      hide Fold, Whole, Rest, Transform, Padding, StateVars;
      if used < 56 {
        done := Whole(message);
        head := PadOneBlock(used, count);
      } else {
        head := Zeros(56);
        done := PadTwoBlocks(used, count);
      }
    }

    // SHA256_Final: pad, process, and write the hash value; the context is cleared.
    method Final() returns (digest: seq<Byte>)
      requires Valid()
      modifies this, state, buffer
      ensures digest == Hash(old(message))
      ensures (forall i :: 0 <= i < 8 ==> state[i] == 0) && bitcount == 0 && buffer[..] == Zeros(64)
    {
      hide Fold, Whole, Rest, Transform, DigestBytes, Padding, CountBytes, StateVars;
      var used := UsedSpace();
      var count := CountBytes(bitcount);
      ghost var done, head := Pad(used, count);
      count := if big then count else Reverse64(count);
      PutCount(HostBytes64(count, big));
      ghost var block := head + CountBytes(bitcount);
      assert BlockAt(buffer[..], 0) == block;
      FoldOneMore(Transform, INITIAL, done, block);
      RunTransform(buffer, 0);
      digest := PutDigest();
      Clear();
    }

    method Clear()
      requires state.Length == 8 && buffer.Length == 64
      modifies this`bitcount, this`message, state, buffer
      ensures (forall i :: 0 <= i < 8 ==> state[i] == 0) && bitcount == 0 && buffer[..] == Zeros(64)
    {
      forall i | 0 <= i < 8 {
        state[i] := 0;
      }
      ClearBytes(buffer, 0, 64);
      bitcount, message := 0, [];
    }

    // Set the bit count.
    method PutCount(b: seq<Byte>)
      requires buffer.Length == 64 && |b| == 8
      modifies buffer
      ensures buffer[..56] == old(buffer[..56]) && buffer[56..] == b
    {
      forall i | 0 <= i < 8 {
        buffer[56+i] := b[i];
      }
    }

    // The words of the state, converted to host byte order and stored.
    method PutDigest() returns (digest: seq<Byte>)
      requires state.Length == 8
      ensures digest == DigestBytes(StateVars(state[..]))
    {
      hide HostBytes, Reverse32;
      digest := [];
      for j := 0 to 8
        invariant digest == StoredWords(state[..j])
      {
        Reverse32Stores(state[j]);
        digest := digest + HostBytes(if big then state[j] else Reverse32(state[j]), big);
        assert state[..j+1] == state[..j] + [state[j]];
      }
      assert state[..8] == state[..];
      EightStoredWords(state[..]);
    }
  }

  function StoredWords(s: seq<Word>): seq<Byte> {
    if s == [] then [] else StoredWords(s[..|s|-1]) + HostBytes(s[|s|-1], true)
  }

  lemma EightStoredWords(s: seq<Word>)
    requires |s| == 8
    ensures StoredWords(s) == DigestBytes(StateVars(s))
  {
    hide HostBytes;
    StoredSplit(s[..4], s[4..]);
    assert s == s[..4] + s[4..];
    FourStoredWords(s[..4]);
    FourStoredWords(s[4..]);
  }

  lemma FourStoredWords(s: seq<Word>)
    requires |s| == 4
    ensures StoredWords(s) == HostBytes(s[0], true) + HostBytes(s[1], true) + HostBytes(s[2], true) + HostBytes(s[3], true)
  {
    hide HostBytes;
    assert s[..3][..2] == s[..2] && s[..2][..1] == s[..1] && s[..1][..0] == [];
    assert StoredWords(s[..1]) == HostBytes(s[0], true);
    assert StoredWords(s[..2]) == StoredWords(s[..1]) + HostBytes(s[1], true);
    assert StoredWords(s[..3]) == StoredWords(s[..2]) + HostBytes(s[2], true);
  }

  lemma {:induction false} StoredSplit(a: seq<Word>, b: seq<Word>)
    ensures StoredWords(a + b) == StoredWords(a) + StoredWords(b)
    decreases b
  {
    hide HostBytes;
    if b == [] {
      assert a + b == a;
    } else {
      assert (a + b)[..|a + b|-1] == a + b[..|b|-1];
      StoredSplit(a, b[..|b|-1]);
    }
  }

  // ----- independence of the cuts

  // One message in any number of pieces of any sizes: the digest is the hash of the whole.
  method HashInChunks(chunks: seq<seq<Byte>>, big: bool, unrolled: bool) returns (digest: seq<Byte>)
    ensures digest == Hash(Joined(chunks))
  {
    hide Hash, Context.Valid;
    var context := new Context(big, unrolled);
    for i := 0 to |chunks|
      invariant context.Valid() && fresh(context) && fresh(context.state) && fresh(context.buffer)
      invariant context.message == Joined(chunks[..i])
    {
      var data := new Byte[|chunks[i]|](j requires 0 <= j < |chunks[i]| => chunks[i][j]);
      assert data[0..|chunks[i]|] == chunks[i];
      assert chunks[..i+1][..i] == chunks[..i];
      context.Update(data, 0, data.Length);
    }
    assert chunks[..|chunks|] == chunks;
    digest := context.Final();
  }
}
