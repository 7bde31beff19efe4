// Encoding a decoded text, and the order of encodings.
module Base32Inverse {
  import opened CTypes
  import opened Base32Group
  import opened Base32
  import opened Base32Laws
  import opened Base32RoundTrip

  // The bits of a last symbol that belong to no byte.
  function UnusedMask(pad: nat): Byte {
    match pad
    case 6 => 0x03
    case 4 => 0x0f
    case 3 => 0x01
    case 1 => 0x07
    case _ => 0x00
  }

  predicate UnusedBitsAreZero(s: seq<Byte>, pad: nat)
    requires ValidPad(pad) && |s| >= 8
  {
    ValueOf(s[|s| - pad - 1]) & UnusedMask(pad) == 0
  }

  // The bytes that remain of a decoded group.
  function Cut(e: Eight, pad: nat): seq<Byte>
    requires ValidPad(pad)
  {
    BytesOf(Join(e))[..5 - Dropped(pad)]
  }

  // d agrees with e up to its last symbol, and there exactly when the unused bits are zero.
  predicate Agrees(e: Eight, d: Eight, pad: nat)
    requires ValidPad(pad)
  {
    var x, y := ListOf(e), ListOf(d);
    && (forall i :: 0 <= i < 7 - pad ==> y[i] == x[i])
    && (y[7 - pad] == x[7 - pad] <==> x[7 - pad] & UnusedMask(pad) == 0)
  }

  lemma CutOneBits(e: Eight)
    requires FiveBits(e)
    ensures var f := Join(e);
      var d := Split(Five(f.b0, 0, 0, 0, 0));
      d.x0 == e.x0 && d.x1 == e.x1 & 0x1c
    ensures e.x1 & 0x1c == e.x1 <==> e.x1 & 0x03 == 0
  {
  }

  lemma CutOne(e: Eight)
    requires FiveBits(e)
    ensures Agrees(e, Split(ZeroPadded(Cut(e, 6))), 6)
  {
    hide Split, Join, FiveBits;
    var f := Join(e);
    CutOneBits(e);
    assert ZeroPadded(Cut(e, 6)) == Five(f.b0, 0, 0, 0, 0);
  }

  lemma CutTwoBits(e: Eight)
    requires FiveBits(e)
    ensures var f := Join(e);
      var d := Split(Five(f.b0, f.b1, 0, 0, 0));
      d.x0 == e.x0 && d.x1 == e.x1 && d.x2 == e.x2 && d.x3 == e.x3 & 0x10
    ensures e.x3 & 0x10 == e.x3 <==> e.x3 & 0x0f == 0
  {
  }

  lemma CutTwo(e: Eight)
    requires FiveBits(e)
    ensures Agrees(e, Split(ZeroPadded(Cut(e, 4))), 4)
  {
    hide Split, Join, FiveBits;
    var f := Join(e);
    CutTwoBits(e);
    assert ZeroPadded(Cut(e, 4)) == Five(f.b0, f.b1, 0, 0, 0);
  }

  lemma CutThreeBits(e: Eight)
    requires FiveBits(e)
    ensures var f := Join(e);
      var d := Split(Five(f.b0, f.b1, f.b2, 0, 0));
      d.x0 == e.x0 && d.x1 == e.x1 && d.x2 == e.x2 && d.x3 == e.x3 && d.x4 == e.x4 & 0x1e
    ensures e.x4 & 0x1e == e.x4 <==> e.x4 & 0x01 == 0
  {
  }

  lemma CutThree(e: Eight)
    requires FiveBits(e)
    ensures Agrees(e, Split(ZeroPadded(Cut(e, 3))), 3)
  {
    hide Split, Join, FiveBits;
    var f := Join(e);
    CutThreeBits(e);
    assert ZeroPadded(Cut(e, 3)) == Five(f.b0, f.b1, f.b2, 0, 0);
  }

  lemma CutFourBits(e: Eight)
    requires FiveBits(e)
    ensures var f := Join(e);
      var d := Split(Five(f.b0, f.b1, f.b2, f.b3, 0));
      d.x0 == e.x0 && d.x1 == e.x1 && d.x2 == e.x2 && d.x3 == e.x3 && d.x4 == e.x4 && d.x5 == e.x5 && d.x6 == e.x6 & 0x18
    ensures e.x6 & 0x18 == e.x6 <==> e.x6 & 0x07 == 0
  {
  }

  lemma CutFour(e: Eight)
    requires FiveBits(e)
    ensures Agrees(e, Split(ZeroPadded(Cut(e, 1))), 1)
  {
    hide Split, Join, FiveBits;
    var f := Join(e);
    CutFourBits(e);
    assert ZeroPadded(Cut(e, 1)) == Five(f.b0, f.b1, f.b2, f.b3, 0);
  }

  // Splitting what remains of a group gives its symbols back, but for the unused bits of the last one.
  lemma CutGroup(e: Eight, pad: nat)
    requires FiveBits(e) && ValidPad(pad)
    ensures Agrees(e, Split(ZeroPadded(Cut(e, pad))), pad)
  {
    hide Split, Join, FiveBits, Agrees;
    match pad
    case 6 => CutOne(e);
    case 4 => CutTwo(e);
    case 3 => CutThree(e);
    case 1 => CutFour(e);
    case _ => CutNothing(e);
  }

  lemma CutNothing(e: Eight)
    requires FiveBits(e)
    ensures Agrees(e, Split(ZeroPadded(Cut(e, 0))), 0)
  {
    hide Split, Join, FiveBits;
    SplitJoin(e);
    assert ZeroPadded(Cut(e, 0)) == Join(e);
    MaskedByNothing(e.x7);
  }

  lemma MaskedByNothing(x: Byte)
    ensures x & 0x00 == 0
  {
  }

  // A symbol of a text, its value, and the symbol that the encoder writes for a value.
  lemma TextAt(s: seq<Byte>, pad: nat, i: nat)
    requires IsShaped(s, pad) && i < |s|
    ensures i < |s| - pad ==>
      ValuesOf(s)[i] == ValueOf(s[i]) && ValuesOf(s)[i] < 32 && Upper(s[i]) == Symbol(ValuesOf(s)[i])
    ensures i >= |s| - pad ==> Upper(s[i]) == PAD && ValuesOf(s)[i] == 0
  {
    ValuesAt(s, i);
    if i < |s| - pad {
      AlphabetIsSymbols(s[i]);
    } else {
      assert s[i] == s[|s| - pad..][i - (|s| - pad)];
    }
  }

  lemma TextIsFiveBits(s: seq<Byte>, pad: nat)
    requires IsShaped(s, pad) && |s| >= 8
    ensures FiveBits(EightOf(ValuesOf(s))) && ListOf(EightOf(ValuesOf(s))) == ValuesOf(s)[..8]
  {
    hide IsShaped, ValuesOf, Symbol, ValueOf;
    forall i | 0 <= i < 8
      ensures ValuesOf(s)[i] < 32
    {
      TextAt(s, pad, i);
    }
  }

  lemma SymbolsOfCut(s: seq<Byte>, pad: nat, i: nat)
    requires |s| == 8 && IsShaped(s, pad) && ValidPad(pad) && i < 8
    ensures var e := EightOf(ValuesOf(s));
      var y, t := ListOf(Split(ZeroPadded(Cut(e, pad)))), EncodeGroup(Cut(e, pad));
      if i < 8 - pad then y[i] < 32 && t[i] == Symbol(y[i]) else t[i] == PAD
  {
    hide Split, Symbol, ListOf, IsShaped, BytesOf, ValuesOf, EightOf, Join;
    var e := EightOf(ValuesOf(s));
    CutLength(e, pad);
    SplitIsFiveBits(ZeroPadded(Cut(e, pad)));
  }

  lemma CutLength(e: Eight, pad: nat)
    requires ValidPad(pad)
    ensures |Cut(e, pad)| == 5 - Dropped(pad) && SymbolCount(5 - Dropped(pad)) == 8 - pad
  {
  }

  lemma GroupBackExactly(s: seq<Byte>, pad: nat)
    requires |s| == 8 && IsShaped(s, pad) && ValidPad(pad)
    ensures EncodeGroup(Cut(EightOf(ValuesOf(s)), pad)) == UpperCased(s) <==> UnusedBitsAreZero(s, pad)
  {
    hide Split, Symbol, IsShaped, ValuesOf, EightOf, Cut, EncodeGroup, ListOf, Upper, ValueOf;
    var e := EightOf(ValuesOf(s));
    CutLength(e, pad);
    SplitIsFiveBits(ZeroPadded(Cut(e, pad)));
    var t := EncodeGroup(Cut(e, pad));
    var x, y := ListOf(e), ListOf(Split(ZeroPadded(Cut(e, pad))));
    TextIsFiveBits(s, pad);
    CutGroup(e, pad);
    forall i | 0 <= i < 8
      ensures t[i] == UpperCased(s)[i] <==> i >= 8 - pad || y[i] == x[i]
    {
      TextAt(s, pad, i);
      SymbolsOfCut(s, pad, i);
      if i < 8 - pad {
        SymbolsKeepOrder(x[i], y[i]);
      }
    }
    TextAt(s, pad, 7 - pad);
  }

  // The bytes of a decoded text without those its padding takes away.
  function Decoded(s: seq<Byte>, pad: nat): seq<Byte>
    requires |s| % 8 == 0 && ValidPad(pad) && pad <= |s|
  {
    Bytes(ValuesOf(s))[..|s| / 8 * 5 - Dropped(pad)]
  }

  lemma FirstGroupIsFull(s: seq<Byte>, pad: nat)
    requires |s| >= 16 && IsShaped(s, pad) && ValidPad(pad)
    ensures IsShaped(s[..8], 0) && IsShaped(s[8..], pad)
  {
    hide InAlphabet, Padding;
    assert s[8..][|s| - 8 - pad..] == s[|s| - pad..];
    assert Padding(0) == [] by { NoPadding(); }
    assert s[..8][8..] == [];
  }

  lemma NoPadding()
    ensures Padding(0) == []
  {
  }

  lemma DecodedStep(s: seq<Byte>, pad: nat)
    requires |s| >= 16 && |s| % 8 == 0 && ValidPad(pad)
    ensures var g := Cut(EightOf(ValuesOf(s[..8])), 0);
      |g| == 5 && Decoded(s, pad) == g + Decoded(s[8..], pad) && |Decoded(s[8..], pad)| > 0
  {
    hide ValuesOf, Join, Bytes;
    var x, y := ValuesOf(s[..8]), ValuesOf(s[8..]);
    assert s == s[..8] + s[8..];
    ValuesOfAppend(s[..8], s[8..]);
    BytesOfGroup(x, y);
    CutLength(EightOf(x), 0);
  }

  lemma DecodedGroup(s: seq<Byte>, pad: nat)
    requires |s| == 8 && ValidPad(pad)
    ensures Decoded(s, pad) == Cut(EightOf(ValuesOf(s)), pad)
  {
    hide ValuesOf, Join, Bytes;
    BytesOfGroup(ValuesOf(s), []);
    NoBytes();
    assert ValuesOf(s) + [] == ValuesOf(s);
  }

  lemma {:induction false} BackExactly(s: seq<Byte>, pad: nat)
    requires |s| >= 8 && |s| % 8 == 0 && IsShaped(s, pad) && ValidPad(pad)
    ensures EncodeBytes(Decoded(s, pad)) == UpperCased(s) <==> UnusedBitsAreZero(s, pad)
  {
    hide EncodeBytes, EncodeGroup, ValuesOf, IsShaped, Decoded, Cut, UnusedBitsAreZero, UpperCased, EightOf, Dropped;
    if |s| == 8 {
      GroupBackExactly(s, pad);
      DecodedGroup(s, pad);
      CutLength(EightOf(ValuesOf(s)), pad);
      EncodeBytesSteps(Decoded(s, pad));
    } else {
      var t, r := s[..8], s[8..];
      FirstGroupIsFull(s, pad);
      BackExactly(r, pad);
      GroupBackExactly(t, 0);
      FullGroupHasNoUnusedBits(t);
      LastGroupHasTheUnusedBits(s, pad);
      DecodedStep(s, pad);
      UpperCasedParts(s);
      GroupInFront(Cut(EightOf(ValuesOf(t)), 0), Decoded(r, pad), UpperCased(t), UpperCased(r));
    }
  }

  lemma GroupInFront(g: seq<Byte>, d: seq<Byte>, t: seq<Byte>, r: seq<Byte>)
    requires |g| == 5 && |d| > 0 && EncodeGroup(g) == t
    ensures EncodeBytes(g + d) == t + r <==> EncodeBytes(d) == r
  {
    hide EncodeGroup, EncodeBytes;
    assert (g + d)[..5] == g && (g + d)[5..] == d;
    EncodeBytesSteps(g + d);
    SamePrefix(t, EncodeBytes(d), r);
  }

  lemma LastGroupHasTheUnusedBits(s: seq<Byte>, pad: nat)
    requires |s| >= 16 && ValidPad(pad)
    ensures UnusedBitsAreZero(s[8..], pad) <==> UnusedBitsAreZero(s, pad)
  {
    hide ValueOf, UnusedMask;
    assert s[8..][|s[8..]| - pad - 1] == s[|s| - pad - 1];
  }

  lemma FullGroupHasNoUnusedBits(t: seq<Byte>)
    requires |t| == 8
    ensures UnusedBitsAreZero(t, 0)
  {
    hide ValueOf;
    MaskedByNothing(ValueOf(t[7]));
  }

  lemma UpperCasedParts(s: seq<Byte>)
    requires |s| >= 8
    ensures UpperCased(s) == UpperCased(s[..8]) + UpperCased(s[8..])
  {
    hide Upper;
  }

  lemma SamePrefix(g: seq<Byte>, x: seq<Byte>, y: seq<Byte>)
    ensures g + x == g + y <==> x == y
  {
    assert (g + x)[|g|..] == x && (g + y)[|g|..] == y;
  }

  // Re-encoding an accepted text gives it back in upper case exactly when the unused bits are zero.
  lemma EncodeUndoesDecodeExactly(s: seq<Byte>, pad: nat)
    requires |s| % 8 == 0 && IsShaped(s, pad) && ValidPad(pad)
    ensures Decode(s).Ok?
    ensures Encode(Decode(s).text) == Ok(UpperCased(s)) <==> s == [] || UnusedBitsAreZero(s, pad)
  {
    hide EncodeBytes, Bytes, ValuesOf, IsShaped, Scan, ValueOf, Upper, Clean, IsHex, Decode, UnusedBitsAreZero,
      UpperCased;
    ShapedIsClean(s, pad, false);
    DecodeOfClean(s);
    BytesOfHexOfBytes(Decoded(s, pad));
    if s == [] {
      NothingComesBack(pad);
    } else {
      BackExactly(s, pad);
    }
  }

  lemma NothingComesBack(pad: nat)
    requires IsShaped([], pad) && ValidPad(pad)
    ensures EncodeBytes(Decoded([], pad)) == UpperCased([])
  {
    hide EncodeBytes, Bytes, ValuesOf;
    NoBytes();
    EncodeBytesSteps([]);
  }
}
