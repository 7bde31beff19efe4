// Both versions of SHA256_Transform (src/pextlib1.0/sha2.c). They keep only sixteen words of the
// message schedule, in the context's own buffer, which may also hold the block they read.
module Sha256Transform {
  import opened CTypes
  import opened BlockHash
  import opened Sha256

  function StateVars(s: seq<Word>): Vars
    requires |s| == 8
  {
    Vars(s[0], s[1], s[2], s[3], s[4], s[5], s[6], s[7])
  }

  // The block at data[off..], as the transform finds it.
  function BlockAt(data: seq<Byte>, off: nat): (b: Block)
    requires off + 64 <= |data|
    ensures forall k :: 0 <= k < 64 ==> b[k] == data[off+k]
  {
    data[off..off+64]
  }

  // A read from W256.
  method LoadWord(buffer: array<Byte>, at: nat, big: bool) returns (w: Word)
    requires buffer.Length == 64 && at < 16
    ensures w == BufferWord(buffer[..], at, big)
  {
    w := HostWord(buffer[..][4*at..4*at+4], big);
  }

  // A write to W256.
  method StoreWord(buffer: array<Byte>, at: nat, w: Word, big: bool)
    requires buffer.Length == 64 && at < 16
    modifies buffer
    ensures BufferWord(buffer[..], at, big) == w
    ensures forall i: nat :: i < 16 && i != at ==> BufferWord(buffer[..], i, big) == old(BufferWord(buffer[..], i, big))
    ensures forall k :: 0 <= k < 64 && (k < 4 * at || 4 * at + 4 <= k) ==> buffer[k] == old(buffer[k])
  {
    hide HostBytes, HostWord;
    var b := HostBytes(w, big);
    ghost var was := buffer[..];
    buffer[4*at], buffer[4*at+1], buffer[4*at+2], buffer[4*at+3] := b[0], b[1], b[2], b[3];
    HostWordReadsBack(w, big);
    assert buffer[..][4*at..4*at+4] == b;
    forall i: nat | i < 16 && i != at ensures buffer[..][4*i..4*i+4] == was[4*i..4*i+4] {
    }
  }

  // The places, modulo 16, of the words turn t needs.
  lemma Places(t: nat)
    requires 16 <= t
    ensures (t - 16) % 16 == t % 16 && (t - 15) % 16 == (t + 1) % 16
    ensures (t - 7) % 16 == (t + 9) % 16 && (t - 2) % 16 == (t + 14) % 16
  {
  }

  // The next schedule word from the sixteen before it.
  lemma ScheduleStep(m: Block, t: nat, w0: Word, w1: Word, w9: Word, w14: Word)
    requires 16 <= t < 64
    requires w0 == Schedule(m, t - 16) && w1 == Schedule(m, t - 15) && w9 == Schedule(m, t - 7) && w14 == Schedule(m, t - 2)
    ensures Add(w0, Add(Add(SmallSigma1(w14), w9), SmallSigma0(w1))) == Schedule(m, t)
  {
    hide SmallSigma0, SmallSigma1, Schedule, Add;
    ScheduleUnfolds(m, t);
    AddCommutes(w0, Add(Add(SmallSigma1(w14), w9), SmallSigma0(w1)));
  }

  lemma ScheduleUnfolds(m: Block, t: nat)
    requires 16 <= t < 64
    ensures Schedule(m, t) ==
      Add(Add(Add(SmallSigma1(Schedule(m, t - 2)), Schedule(m, t - 7)), SmallSigma0(Schedule(m, t - 15))),
          Schedule(m, t - 16))
  {
    hide SmallSigma0, SmallSigma1, Add;
  }

  // The sixteen words in the buffer are those of turns j-16 to j-1.
  ghost predicate Rolling(buffer: seq<Byte>, m: Block, j: nat, big: bool)
    requires |buffer| == 64 && 16 <= j <= 64
  {
    forall i: nat :: j - 16 <= i < j ==> BufferWord(buffer, i % 16, big) == Schedule(m, i)
  }

  lemma RollingStep(was: seq<Byte>, now: seq<Byte>, m: Block, j: nat, big: bool)
    requires |was| == |now| == 64 && 16 <= j < 64 && Rolling(was, m, j, big)
    requires forall i: nat :: i < 16 && i != j % 16 ==> BufferWord(now, i, big) == BufferWord(was, i, big)
    requires BufferWord(now, j % 16, big) == Schedule(m, j)
    ensures Rolling(now, m, j + 1, big)
  {
    hide BufferWord, Schedule;
    forall i: nat | j - 15 <= i < j ensures BufferWord(now, i % 16, big) == Schedule(m, i) {
      assert i % 16 != j % 16;
    }
  }

  // The schedule word of turn j, put where the word of turn j-16 was.
  method NextWord(buffer: array<Byte>, j: nat, ghost m: Block, big: bool) returns (w: Word)
    requires buffer.Length == 64 && 16 <= j < 64 && Rolling(buffer[..], m, j, big)
    modifies buffer
    ensures w == Schedule(m, j) && Rolling(buffer[..], m, j + 1, big)
  {
    hide BufferWord, Schedule, SmallSigma0, SmallSigma1, Add;
    ghost var was := buffer[..];
    Places(j);
    var w1 := LoadWord(buffer, (j + 1) % 16, big);
    var s0 := SmallSigma0(w1);
    var w14 := LoadWord(buffer, (j + 14) % 16, big);
    var s1 := SmallSigma1(w14);
    var w9 := LoadWord(buffer, (j + 9) % 16, big);
    w := LoadWord(buffer, j % 16, big);
    ScheduleStep(m, j, w, w1, w9, w14);
    w := Add(w, Add(Add(s1, w9), s0));
    StoreWord(buffer, j % 16, w, big);
    RollingStep(was, buffer[..], m, j, big);
  }

  // What is still to be read of the block, and what was stored of it.
  ghost predicate Loading(buffer: seq<Byte>, data: seq<Byte>, off: nat, m: Block, j: nat, big: bool)
    requires |buffer| == 64 && off + 64 <= |data| && j <= 16
  {
    && (forall i: nat :: i < j ==> BufferWord(buffer, i, big) == MessageWord(m, i))
    && (forall k :: 4 * j <= k < 64 ==> data[off+k] == m[k])
  }

  lemma NothingLoaded(buffer: seq<Byte>, data: seq<Byte>, off: nat, start: Vars, big: bool)
    requires |buffer| == 64 && off + 64 <= |data|
    ensures Loading(buffer, data, off, BlockAt(data, off), 0, big)
    ensures Rounds(start, BlockAt(data, off), 0) == start
  {
  }

  // Word j of the block, moved into the buffer. When the block is the buffer itself, its bytes
  // from 4j on have not been overwritten yet.
  method FirstWord(buffer: array<Byte>, data: array<Byte>, off: nat, j: nat, ghost m: Block, big: bool) returns (w: Word)
    requires buffer.Length == 64 && off + 64 <= data.Length && j < 16 && (data == buffer ==> off == 0)
    requires Loading(buffer[..], data[..], off, m, j, big)
    modifies buffer
    ensures w == MessageWord(m, j) && Loading(buffer[..], data[..], off, m, j + 1, big)
  {
    hide BufferWord, WordOf;
    var at := off + 4 * j;
    assert data[..][off+4*j] == m[4*j] && data[..][off+(4*j+1)] == m[4*j+1];
    assert data[..][off+(4*j+2)] == m[4*j+2] && data[..][off+(4*j+3)] == m[4*j+3];
    w := WordOf(data[at], data[at+1], data[at+2], data[at+3]);
    ghost var was := data[..];
    StoreWord(buffer, j, w, big);
    forall k | 4 * (j + 1) <= k < 64 ensures data[..][off+k] == m[k] {
      assert was[off+k] == m[k];
    }
  }

  lemma LoadedIsRolling(buffer: seq<Byte>, data: seq<Byte>, off: nat, m: Block, big: bool)
    requires |buffer| == 64 && off + 64 <= |data| && Loading(buffer, data, off, m, 16, big)
    ensures Rolling(buffer, m, 16, big)
  {
    hide BufferWord, MessageWord;
    forall i: nat | i < 16 ensures BufferWord(buffer, i % 16, big) == Schedule(m, i) {
    }
  }

  // SHA256_Transform without unrolling.
  method TransformRolled(state: array<Word>, buffer: array<Byte>, data: array<Byte>, off: nat, big: bool)
    requires state.Length == 8 && buffer.Length == 64 && off + 64 <= data.Length && (data == buffer ==> off == 0)
    modifies state, buffer
    ensures StateVars(state[..]) == Transform(old(StateVars(state[..])), old(BlockAt(data[..], off)))
  {
    hide BigSigma0, BigSigma1, Ch, Maj, K256, MessageWord, BufferWord, Schedule, Add, AddVars, Loading, Rolling;
    ghost var m, start := BlockAt(data[..], off), StateVars(state[..]);
    NothingLoaded(buffer[..], data[..], off, start, big);
    var a, b, c, d := state[0], state[1], state[2], state[3];
    var e, f, g, h := state[4], state[5], state[6], state[7];
    var j: nat := 0;
    while j < 16
      invariant j <= 16 && Loading(buffer[..], data[..], off, m, j, big)
      invariant Vars(a, b, c, d, e, f, g, h) == Rounds(start, m, j)
      invariant state[..] == old(state[..])
    {
      var w := FirstWord(buffer, data, off, j, m, big);
      FirstScheduleWords(m, j);
      var t1 := Add(Add(Add(Add(h, BigSigma1(e)), Ch(e, f, g)), K256()[j]), w);
      var t2 := Add(BigSigma0(a), Maj(a, b, c));
      h, g, f, e, d, c, b, a := g, f, e, Add(d, t1), c, b, a, Add(t1, t2);
      j := j + 1;
    }
    LoadedIsRolling(buffer[..], data[..], off, m, big);
    while j < 64
      invariant 16 <= j <= 64 && Rolling(buffer[..], m, j, big)
      invariant Vars(a, b, c, d, e, f, g, h) == Rounds(start, m, j)
      invariant state[..] == old(state[..])
    {
      var w := NextWord(buffer, j, m, big);
      var t1 := Add(Add(Add(Add(h, BigSigma1(e)), Ch(e, f, g)), K256()[j]), w);
      var t2 := Add(BigSigma0(a), Maj(a, b, c));
      h, g, f, e, d, c, b, a := g, f, e, Add(d, t1), c, b, a, Add(t1, t2);
      j := j + 1;
    }
    AddInto(state, Vars(a, b, c, d, e, f, g, h));
  }

  lemma FirstScheduleWords(m: Block, t: nat)
    requires t < 16
    ensures Schedule(m, t) == MessageWord(m, t)
  {
  }

  // The working variables are added to the state.
  method AddInto(state: array<Word>, v: Vars)
    requires state.Length == 8
    modifies state
    ensures StateVars(state[..]) == AddVars(old(StateVars(state[..])), v)
  {
    hide Add;
    state[0], state[1], state[2], state[3] :=
      Add(state[0], v.a), Add(state[1], v.b), Add(state[2], v.c), Add(state[3], v.d);
    state[4], state[5], state[6], state[7] :=
      Add(state[4], v.e), Add(state[5], v.f), Add(state[6], v.g), Add(state[7], v.h);
  }

  // The common part of the macros ROUND256_0_TO_15 and ROUND256: it changes d and h only.
  method RoundMacro(a: Word, b: Word, c: Word, d: Word, e: Word, f: Word, g: Word, h: Word, k: Word, w: Word)
    returns (d': Word, h': Word)
    ensures Vars(h', a, b, c, d', e, f, g) == Round(Vars(a, b, c, d, e, f, g, h), k, w)
  {
    hide BigSigma0, BigSigma1, Ch, Maj, Add;
    var t1 := Add(Add(Add(Add(h, BigSigma1(e)), Ch(e, f, g)), k), w);
    d' := Add(d, t1);
    h' := Add(Add(t1, BigSigma0(a)), Maj(a, b, c));
    AddAssociates(t1, BigSigma0(a), Maj(a, b, c));
  }

  // The eight macro calls of the first loop: the names of the variables rotate, not the values.
  method EightFirstRounds(buffer: array<Byte>, data: array<Byte>, off: nat, j: nat, ghost start: Vars, ghost m: Block,
                          big: bool, v: Vars) returns (v': Vars)
    requires buffer.Length == 64 && off + 64 <= data.Length && j <= 8 && (data == buffer ==> off == 0)
    requires Loading(buffer[..], data[..], off, m, j, big) && v == Rounds(start, m, j)
    modifies buffer
    ensures Loading(buffer[..], data[..], off, m, j + 8, big) && v' == Rounds(start, m, j + 8)
  {
    hide Rounds, Loading;
    var Vars(a, b, c, d, e, f, g, h) := v;
    d, h := FirstRound(buffer, data, off, j, start, m, big, a, b, c, d, e, f, g, h);
    c, g := FirstRound(buffer, data, off, j + 1, start, m, big, h, a, b, c, d, e, f, g);
    b, f := FirstRound(buffer, data, off, j + 2, start, m, big, g, h, a, b, c, d, e, f);
    a, e := FirstRound(buffer, data, off, j + 3, start, m, big, f, g, h, a, b, c, d, e);
    h, d := FirstRound(buffer, data, off, j + 4, start, m, big, e, f, g, h, a, b, c, d);
    g, c := FirstRound(buffer, data, off, j + 5, start, m, big, d, e, f, g, h, a, b, c);
    f, b := FirstRound(buffer, data, off, j + 6, start, m, big, c, d, e, f, g, h, a, b);
    e, a := FirstRound(buffer, data, off, j + 7, start, m, big, b, c, d, e, f, g, h, a);
    v' := Vars(a, b, c, d, e, f, g, h);
  }

  // The eight macro calls of the second loop.
  method EightNextRounds(buffer: array<Byte>, j: nat, ghost start: Vars, ghost m: Block, big: bool, v: Vars)
    returns (v': Vars)
    requires buffer.Length == 64 && 16 <= j <= 56
    requires Rolling(buffer[..], m, j, big) && v == Rounds(start, m, j)
    modifies buffer
    ensures Rolling(buffer[..], m, j + 8, big) && v' == Rounds(start, m, j + 8)
  {
    hide Rounds, Rolling;
    var Vars(a, b, c, d, e, f, g, h) := v;
    d, h := NextRound(buffer, j, start, m, big, a, b, c, d, e, f, g, h);
    c, g := NextRound(buffer, j + 1, start, m, big, h, a, b, c, d, e, f, g);
    b, f := NextRound(buffer, j + 2, start, m, big, g, h, a, b, c, d, e, f);
    a, e := NextRound(buffer, j + 3, start, m, big, f, g, h, a, b, c, d, e);
    h, d := NextRound(buffer, j + 4, start, m, big, e, f, g, h, a, b, c, d);
    g, c := NextRound(buffer, j + 5, start, m, big, d, e, f, g, h, a, b, c);
    f, b := NextRound(buffer, j + 6, start, m, big, c, d, e, f, g, h, a, b);
    e, a := NextRound(buffer, j + 7, start, m, big, b, c, d, e, f, g, h, a);
    v' := Vars(a, b, c, d, e, f, g, h);
  }

  // SHA256_Transform with eight turns unrolled.
  method TransformUnrolled(state: array<Word>, buffer: array<Byte>, data: array<Byte>, off: nat, big: bool)
    requires state.Length == 8 && buffer.Length == 64 && off + 64 <= data.Length && (data == buffer ==> off == 0)
    modifies state, buffer
    ensures StateVars(state[..]) == Transform(old(StateVars(state[..])), old(BlockAt(data[..], off)))
  {
    hide Rounds, Loading, Rolling, AddVars;
    ghost var m, start := BlockAt(data[..], off), StateVars(state[..]);
    NothingLoaded(buffer[..], data[..], off, start, big);
    var v := Vars(state[0], state[1], state[2], state[3], state[4], state[5], state[6], state[7]);
    var j: nat := 0;
    while j < 16
      invariant j <= 16 && j % 8 == 0 && Loading(buffer[..], data[..], off, m, j, big)
      invariant v == Rounds(start, m, j) && state[..] == old(state[..])
    {
      v := EightFirstRounds(buffer, data, off, j, start, m, big, v);
      j := j + 8;
    }
    LoadedIsRolling(buffer[..], data[..], off, m, big);
    while j < 64
      invariant 16 <= j <= 64 && j % 8 == 0 && Rolling(buffer[..], m, j, big)
      invariant v == Rounds(start, m, j) && state[..] == old(state[..])
    {
      v := EightNextRounds(buffer, j, start, m, big, v);
      j := j + 8;
    }
    AddInto(state, v);
  }

  // ROUND256_0_TO_15.
  method FirstRound(buffer: array<Byte>, data: array<Byte>, off: nat, j: nat, ghost start: Vars, ghost m: Block, big: bool,
                    a: Word, b: Word, c: Word, d: Word, e: Word, f: Word, g: Word, h: Word) returns (d': Word, h': Word)
    requires buffer.Length == 64 && off + 64 <= data.Length && j < 16 && (data == buffer ==> off == 0)
    requires Loading(buffer[..], data[..], off, m, j, big) && Vars(a, b, c, d, e, f, g, h) == Rounds(start, m, j)
    modifies buffer
    ensures Loading(buffer[..], data[..], off, m, j + 1, big) && Vars(h', a, b, c, d', e, f, g) == Rounds(start, m, j + 1)
  {
    hide Round, K256, MessageWord, BufferWord, Schedule;
    var w := FirstWord(buffer, data, off, j, m, big);
    FirstScheduleWords(m, j);
    d', h' := RoundMacro(a, b, c, d, e, f, g, h, K256()[j], w);
  }

  // ROUND256.
  method NextRound(buffer: array<Byte>, j: nat, ghost start: Vars, ghost m: Block, big: bool,
                   a: Word, b: Word, c: Word, d: Word, e: Word, f: Word, g: Word, h: Word) returns (d': Word, h': Word)
    requires buffer.Length == 64 && 16 <= j < 64
    requires Rolling(buffer[..], m, j, big) && Vars(a, b, c, d, e, f, g, h) == Rounds(start, m, j)
    modifies buffer
    ensures Rolling(buffer[..], m, j + 1, big) && Vars(h', a, b, c, d', e, f, g) == Rounds(start, m, j + 1)
  {
    hide Round, K256, BufferWord, Schedule;
    var w := NextWord(buffer, j, m, big);
    d', h' := RoundMacro(a, b, c, d, e, f, g, h, K256()[j], w);
  }
}
