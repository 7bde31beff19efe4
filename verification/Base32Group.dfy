// base32hex, one group: five bytes against eight five-bit values, and the symbols for the values.
module Base32Group {
  import opened CTypes

  const PAD: Byte := 61  // '='
  const BAD: Byte := 64

  datatype Five = Five(b0: Byte, b1: Byte, b2: Byte, b3: Byte, b4: Byte)
  datatype Eight = Eight(x0: Byte, x1: Byte, x2: Byte, x3: Byte, x4: Byte, x5: Byte, x6: Byte, x7: Byte)

  // The shifts of the encoder; shifting an unsigned char and masking with 0x1f is the same in eight bits.
  function Split(f: Five): Eight {
    Eight(f.b0 >> 3,
          0x1f & ((f.b0 << 2) | (f.b1 >> 6)),
          0x1f & (f.b1 >> 1),
          0x1f & ((f.b1 << 4) | (f.b2 >> 4)),
          0x1f & ((f.b2 << 1) | (f.b3 >> 7)),
          0x1f & (f.b3 >> 2),
          0x1f & ((f.b3 << 3) | (f.b4 >> 5)),
          0x1f & f.b4)
  }

  // The shifts of the decoder.
  function Join(e: Eight): Five {
    Five(Joined0(e.x0, e.x1), Joined1(e.x1, e.x2, e.x3), Joined2(e.x3, e.x4), Joined3(e.x4, e.x5, e.x6),
         Joined4(e.x6, e.x7))
  }

  function Joined0(x0: Byte, x1: Byte): Byte {
    (x0 << 3) | (x1 >> 2)
  }

  function Joined1(x1: Byte, x2: Byte, x3: Byte): Byte {
    (x1 << 6) | (x2 << 1) | (x3 >> 4)
  }

  function Joined2(x3: Byte, x4: Byte): Byte {
    (x3 << 4) | (x4 >> 1)
  }

  function Joined3(x4: Byte, x5: Byte, x6: Byte): Byte {
    (x4 << 7) | (x5 << 2) | (x6 >> 3)
  }

  function Joined4(x6: Byte, x7: Byte): Byte {
    (x6 << 5) | x7
  }

  predicate FiveBits(e: Eight) {
    e.x0 < 32 && e.x1 < 32 && e.x2 < 32 && e.x3 < 32 && e.x4 < 32 && e.x5 < 32 && e.x6 < 32 && e.x7 < 32
  }

  lemma JoinSplit(f: Five)
    ensures FiveBits(Split(f)) && Join(Split(f)) == f
  {
    var b0, b1, b2, b3, b4 := f.b0, f.b1, f.b2, f.b3, f.b4;
    assert b0 >> 3 < 32 && 0x1f & ((b0 << 2) | (b1 >> 6)) < 32 && 0x1f & (b1 >> 1) < 32;
    assert 0x1f & ((b1 << 4) | (b2 >> 4)) < 32 && 0x1f & ((b2 << 1) | (b3 >> 7)) < 32;
    assert 0x1f & (b3 >> 2) < 32 && 0x1f & ((b3 << 3) | (b4 >> 5)) < 32 && 0x1f & b4 < 32;
  }

  function ListOf(e: Eight): seq<Byte> {
    [e.x0, e.x1, e.x2, e.x3, e.x4, e.x5, e.x6, e.x7]
  }

  lemma SplitIsFiveBits(f: Five)
    ensures |ListOf(Split(f))| == 8 && forall i :: 0 <= i < 8 ==> ListOf(Split(f))[i] < 32
  {
    JoinSplit(f);
    hide Split, Join;
  }

  lemma SplitJoin(e: Eight)
    requires FiveBits(e)
    ensures Split(Join(e)) == e
  {
  }

  // Table lookups: "0123456789ABCDEFGHIJKLMNOPQRSTUV" and its inverse, which ignores case.
  function Symbol(v: Byte): Byte
    requires v < 32
  {
    if v < 10 then 48 + v else 55 + v
  }

  function ValueOf(c: Byte): Byte {
    if 48 <= c <= 57 then c - 48
    else if 65 <= c <= 86 then c - 55
    else if 97 <= c <= 118 then c - 87
    else BAD
  }

  // High bytes are refused before the table is consulted.
  predicate InAlphabet(c: Byte) {
    c & 0x80 == 0 && ValueOf(c) != BAD
  }

  function Upper(c: Byte): Byte {
    if 97 <= c <= 122 then c - 32 else c
  }

  lemma SymbolHasValue(v: Byte)
    requires v < 32
    ensures InAlphabet(Symbol(v)) && ValueOf(Symbol(v)) == v && Symbol(v) != PAD
  {
  }

  lemma AlphabetIsSymbols(c: Byte)
    requires InAlphabet(c)
    ensures ValueOf(c) < 32 && Symbol(ValueOf(c)) == Upper(c) && c != PAD
  {
  }

  lemma SymbolsKeepOrder(v: Byte, w: Byte)
    requires v < 32 && w < 32
    ensures Symbol(v) < Symbol(w) <==> v < w
    ensures Symbol(v) == Symbol(w) <==> v == w
  {
  }

  predicate Before(x: Byte, y: Byte) {
    x < y
  }

  predicate LessFive(f: Five, g: Five) {
    Before(f.b0, g.b0) || (f.b0 == g.b0 && (
    Before(f.b1, g.b1) || (f.b1 == g.b1 && (
    Before(f.b2, g.b2) || (f.b2 == g.b2 && (
    Before(f.b3, g.b3) || (f.b3 == g.b3 && Before(f.b4, g.b4))))))))
  }

  predicate LessEight(e: Eight, d: Eight) {
    Before(e.x0, d.x0) || (e.x0 == d.x0 && (
    Before(e.x1, d.x1) || (e.x1 == d.x1 && (
    Before(e.x2, d.x2) || (e.x2 == d.x2 && (
    Before(e.x3, d.x3) || (e.x3 == d.x3 && (
    Before(e.x4, d.x4) || (e.x4 == d.x4 && (
    Before(e.x5, d.x5) || (e.x5 == d.x5 && (
    Before(e.x6, d.x6) || (e.x6 == d.x6 && Before(e.x7, d.x7))))))))))))))
  }

  lemma FirstByte0(f: Five, g: Five)
    requires Before(f.b0, g.b0)
    ensures LessEight(Split(f), Split(g))
  {
  }

  lemma FirstByte1(f: Five, g: Five)
    requires f.b0 == g.b0 && Before(f.b1, g.b1)
    ensures LessEight(Split(f), Split(g))
  {
  }

  lemma FirstByte2(f: Five, g: Five)
    requires f.b0 == g.b0 && f.b1 == g.b1 && Before(f.b2, g.b2)
    ensures LessEight(Split(f), Split(g))
  {
  }

  lemma FirstByte3(f: Five, g: Five)
    requires f.b0 == g.b0 && f.b1 == g.b1 && f.b2 == g.b2 && Before(f.b3, g.b3)
    ensures LessEight(Split(f), Split(g))
  {
  }

  lemma FirstByte4(f: Five, g: Five)
    requires f.b0 == g.b0 && f.b1 == g.b1 && f.b2 == g.b2 && f.b3 == g.b3 && Before(f.b4, g.b4)
    ensures LessEight(Split(f), Split(g))
  {
  }

  lemma BytesAreOrdered(x: Byte, y: Byte)
    ensures Before(x, y) || Before(y, x) || x == y
    ensures !Before(x, x)
  {
  }

  lemma Irreflexive(f: Five)
    ensures !Before(f.b0, f.b0) && !Before(f.b1, f.b1) && !Before(f.b2, f.b2)
    ensures !Before(f.b3, f.b3) && !Before(f.b4, f.b4)
  {
  }

  lemma SplitLess(f: Five, g: Five)
    requires LessFive(f, g)
    ensures LessEight(Split(f), Split(g)) && !LessEight(Split(g), Split(f))
  {
    hide LessEight, Split, Before;
    Irreflexive(f);
    Asymmetric(Split(f), Split(g));
    if f.b0 != g.b0 {
      FirstByte0(f, g);
    } else if f.b1 != g.b1 {
      FirstByte1(f, g);
    } else if f.b2 != g.b2 {
      FirstByte2(f, g);
    } else if f.b3 != g.b3 {
      FirstByte3(f, g);
    } else {
      FirstByte4(f, g);
    }
  }

  // Splitting keeps the lexicographic order, the purpose of the extended hex alphabet.
  lemma SplitKeepsOrder(f: Five, g: Five)
    ensures LessFive(f, g) <==> LessEight(Split(f), Split(g))
    ensures f == g <==> Split(f) == Split(g)
  {
    hide Split, Join, LessFive, LessEight, FiveBits;
    JoinSplit(f);
    JoinSplit(g);
    Trichotomy(f, g);
    Asymmetric(Split(f), Split(g));
    if LessFive(f, g) {
      SplitLess(f, g);
    } else if LessFive(g, f) {
      SplitLess(g, f);
    }
  }

  lemma Trichotomy(f: Five, g: Five)
    ensures LessFive(f, g) || LessFive(g, f) || f == g
    ensures !LessFive(f, f)
  {
    hide Before;
    Irreflexive(f);
    if f.b0 != g.b0 {
      BytesAreOrdered(f.b0, g.b0);
    } else if f.b1 != g.b1 {
      BytesAreOrdered(f.b1, g.b1);
    } else if f.b2 != g.b2 {
      BytesAreOrdered(f.b2, g.b2);
    } else if f.b3 != g.b3 {
      BytesAreOrdered(f.b3, g.b3);
    } else {
      BytesAreOrdered(f.b4, g.b4);
    }
  }

  lemma Asymmetric(e: Eight, d: Eight)
    ensures !(LessEight(e, d) && LessEight(d, e))
  {
    hide Before;
    BytesAreAsymmetric(e.x0, d.x0);
    BytesAreAsymmetric(e.x1, d.x1);
    BytesAreAsymmetric(e.x2, d.x2);
    BytesAreAsymmetric(e.x3, d.x3);
    BytesAreAsymmetric(e.x4, d.x4);
    BytesAreAsymmetric(e.x5, d.x5);
    BytesAreAsymmetric(e.x6, d.x6);
    BytesAreAsymmetric(e.x7, d.x7);
  }

  lemma BytesAreAsymmetric(x: Byte, y: Byte)
    ensures !(Before(x, y) && (Before(y, x) || x == y))
  {
  }
}
