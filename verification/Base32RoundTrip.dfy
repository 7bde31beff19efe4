// Decoding an encoding gives the input back, and encoding a decoding gives the text back exactly when nothing was cut.
module Base32RoundTrip {
  import opened CTypes
  import opened Base32Group
  import opened Base32
  import opened Base32Laws

  lemma {:induction false} ValuesAt(t: seq<Byte>, i: nat)
    requires i < |t|
    ensures ValuesOf(t)[i] == if t[i] == PAD then 0 else ValueOf(t[i])
  {
    if i > 0 {
      ValuesAt(t[1..], i - 1);
    }
  }

  // The values behind the last symbol of a short group are zero.
  lemma ShortGroupEndsInZeros(b: Byte)
    ensures 0x1f & ((0 as Byte >> 1)) == 0 && 0x1f & ((0 as Byte << 4) | (0 as Byte >> 4)) == 0
    ensures 0x1f & ((0 as Byte << 1) | (0 as Byte >> 7)) == 0 && 0x1f & (0 as Byte >> 2) == 0
    ensures 0x1f & ((0 as Byte << 3) | (0 as Byte >> 5)) == 0 && 0x1f & (0 as Byte) == 0
  {
  }

  lemma GroupTail(g: seq<Byte>)
    requires 1 <= |g| <= 5
    ensures forall i :: SymbolCount(|g|) <= i < 8 ==> ListOf(Split(ZeroPadded(g)))[i] == 0
  {
    ShortGroupEndsInZeros(0);
  }

  lemma GroupReadsBack(g: seq<Byte>)
    requires 1 <= |g| <= 5
    ensures IsShaped(EncodeGroup(g), 8 - SymbolCount(|g|))
    ensures ValuesOf(EncodeGroup(g)) == ListOf(Split(ZeroPadded(g)))
  {
    hide Split, Symbol, ListOf, InAlphabet, ValueOf, ValuesOf;
    var t, e, n := EncodeGroup(g), Split(ZeroPadded(g)), SymbolCount(|g|);
    SplitIsFiveBits(ZeroPadded(g));
    forall i | 0 <= i < 8
      ensures i < n ==> InAlphabet(t[i])
      ensures ValuesOf(t)[i] == ListOf(e)[i]
    {
      ValuesAt(t, i);
      if i < n {
        SymbolHasValue(ListOf(e)[i]);
      } else {
        GroupTail(g);
      }
    }
  }

  lemma ListLength(e: Eight)
    ensures |ListOf(e)| == 8 && EightOf(ListOf(e)) == e
  {
  }

  // Padding of an encoding of n bytes, and zero bytes of its last group.
  function PadFor(n: nat): nat {
    if n % 5 == 0 then 0 else 8 - SymbolCount(n % 5)
  }

  function ZeroBytes(n: nat): (z: seq<Byte>)
    ensures |z| == (5 - n % 5) % 5
  {
    seq((5 - n % 5) % 5, _ => 0)
  }

  lemma {:induction false} ValuesOfAppend(s: seq<Byte>, t: seq<Byte>)
    ensures ValuesOf(s + t) == ValuesOf(s) + ValuesOf(t)
  {
    hide ValuesOf;
    if s == [] {
      assert s + t == t && ValuesOf(s) == [];
    } else {
      ValuesOfAppend(s[1..], t);
      assert (s + t)[..1] == s[..1] && (s + t)[1..] == s[1..] + t;
      FirstValue(s);
      FirstValue(s + t);
    }
  }

  lemma FirstValue(s: seq<Byte>)
    requires s != []
    ensures ValuesOf(s) == ValuesOf(s[..1]) + ValuesOf(s[1..])
  {
    hide ValueOf;
    assert ValuesOf(s[..1]) == [if s[0] == PAD then 0 else ValueOf(s[0])];
  }

  lemma BytesOfGroup(x: seq<Byte>, rest: seq<Byte>)
    requires |x| == 8 && |rest| % 8 == 0
    ensures Bytes(x + rest) == BytesOf(Join(EightOf(x))) + Bytes(rest)
  {
    hide Join;
    assert (x + rest)[8..] == rest;
    assert EightOf(x + rest) == EightOf(x);
  }

  lemma ShapedAppend(s: seq<Byte>, t: seq<Byte>, pad: nat)
    requires IsShaped(s, 0) && IsShaped(t, pad)
    ensures IsShaped(s + t, pad)
  {
    hide InAlphabet, Padding;
    assert (s + t)[|s + t| - pad..] == t[|t| - pad..];
  }

  // One group's bytes come back, completed with zeros.
  lemma GroupBytes(g: seq<Byte>)
    requires 1 <= |g| <= 5
    ensures Bytes(ValuesOf(EncodeGroup(g))) == g + ZeroBytes(|g|)
  {
    hide Join, Split, EncodeGroup, ValuesOf, ListOf;
    var x := ValuesOf(EncodeGroup(g));
    GroupReadsBack(g);
    ListLength(Split(ZeroPadded(g)));
    JoinSplit(ZeroPadded(g));
    BytesOfGroup(x, []);
    assert x + [] == x;
    assert BytesOf(ZeroPadded(g)) == g + ZeroBytes(|g|);
  }

  // The encoding is a proper text, and decodes to the bytes, completed with zeros.
  predicate ReadsBack(b: seq<Byte>) {
    && |EncodeBytes(b)| % 8 == 0
    && IsShaped(EncodeBytes(b), PadFor(|b|))
    && Bytes(ValuesOf(EncodeBytes(b))) == b + ZeroBytes(|b|)
  }

  lemma {:induction false} EncodedReadsBack(b: seq<Byte>)
    ensures ReadsBack(b)
  {
    hide ReadsBack;
    if |b| <= 5 {
      OneGroupReadsBack(b);
    } else {
      EncodedReadsBack(b[5..]);
      GroupInFrontReadsBack(b[..5], b[5..]);
      assert b[..5] + b[5..] == b;
    }
  }

  lemma OneGroupReadsBack(b: seq<Byte>)
    requires |b| <= 5
    ensures ReadsBack(b)
  {
    hide EncodeGroup, EncodeBytes, ValuesOf, IsShaped, Bytes, PadFor, ZeroBytes;
    EncodeBytesSteps(b);
    PadOfGroup(|b|);
    if b == [] {
      NoBytes();
    } else {
      GroupReadsBack(b);
      GroupBytes(b);
    }
  }

  lemma GroupInFrontReadsBack(g: seq<Byte>, r: seq<Byte>)
    requires |g| == 5 && r != [] && ReadsBack(r)
    ensures ReadsBack(g + r)
  {
    hide EncodeGroup, EncodeBytes, ValuesOf, IsShaped, Bytes, PadFor, ZeroBytes;
    var b := g + r;
    assert b[..5] == g && b[5..] == r;
    EncodeBytesSteps(b);
    PadOfGroup(5);
    GroupReadsBack(g);
    GroupBytes(g);
    FullGroupsDoNotPad(|r|);
    ShapedAppend(EncodeGroup(g), EncodeBytes(r), PadFor(|b|));
    BytesOfAppend(EncodeGroup(g), EncodeBytes(r));
    assert g + (r + ZeroBytes(|r|)) == b + ZeroBytes(|b|);
  }

  lemma PadOfGroup(n: nat)
    requires n <= 5
    ensures PadFor(n) == if n == 0 then 0 else 8 - SymbolCount(n)
    ensures n == 0 || n == 5 ==> ZeroBytes(n) == []
  {
  }

  lemma FullGroupsDoNotPad(n: nat)
    ensures PadFor(n + 5) == PadFor(n) && ZeroBytes(n + 5) == ZeroBytes(n)
  {
    assert (n + 5) % 5 == n % 5;
  }

  lemma EncodeBytesSteps(b: seq<Byte>)
    ensures b == [] ==> EncodeBytes(b) == []
    ensures 0 < |b| <= 5 ==> EncodeBytes(b) == EncodeGroup(b)
    ensures |b| > 5 ==> EncodeBytes(b) == EncodeGroup(b[..5]) + EncodeBytes(b[5..])
  {
    hide EncodeGroup;
  }

  lemma BytesOfAppend(t: seq<Byte>, s: seq<Byte>)
    requires |t| == 8 && |s| % 8 == 0
    ensures Bytes(ValuesOf(t + s)) == Bytes(ValuesOf(t)) + Bytes(ValuesOf(s))
  {
    hide ValuesOf, Join, BytesOf, Bytes;
    var x, y := ValuesOf(t), ValuesOf(s);
    ValuesOfAppend(t, s);
    BytesOfGroup(x, y);
    BytesOfGroup(x, []);
    NoBytes();
    assert x + [] == x;
    assert Bytes(x) == BytesOf(Join(EightOf(x)));
  }

  lemma NoBytes()
    ensures Bytes([]) == [] && ValuesOf([]) == [] && IsShaped([], 0)
  {
  }

  function Lower(c: Byte): Byte {
    if 65 <= c <= 90 then c + 32 else c
  }

  function LowerCased(t: seq<Byte>): (l: seq<Byte>)
    ensures |l| == |t| && forall i :: 0 <= i < |t| ==> l[i] == Lower(t[i])
  {
    seq(|t|, i requires 0 <= i < |t| => Lower(t[i]))
  }

  function UpperCased(t: seq<Byte>): (u: seq<Byte>)
    ensures |u| == |t| && forall i :: 0 <= i < |t| ==> u[i] == Upper(t[i])
  {
    seq(|t|, i requires 0 <= i < |t| => Upper(t[i]))
  }

  predicate AllHex(h: seq<Byte>) {
    |h| % 2 == 0 && forall i :: 0 <= i < |h| ==> IsHex(h[i])
  }

  lemma HexPair(high: Byte, low: Byte)
    requires IsHex(high) && IsHex(low)
    ensures HighDigit(HexByte(high, low)) == Lower(high) && LowDigit(HexByte(high, low)) == Lower(low)
  {
    var h, l := HexValue(high), HexValue(low);
    assert h < 16 && l < 16;
    assert ((h << 4) | l) >> 4 == h && ((h << 4) | l) & 0x0f == l;
  }

  lemma HexDigits(b: Byte)
    ensures IsHex(HighDigit(b)) && IsHex(LowDigit(b)) && HexByte(HighDigit(b), LowDigit(b)) == b
  {
    assert b >> 4 < 16 && b & 0x0f < 16;
    assert ((b >> 4) << 4) | (b & 0x0f) == b;
  }

  lemma {:induction false} HexOfBytesOfHex(h: seq<Byte>)
    requires AllHex(h)
    ensures ToHex(FromHex(h)) == LowerCased(h)
  {
    hide HexByte, HighDigit, LowDigit, IsHex, Lower;
    if h != [] {
      HexOfBytesOfHex(h[2..]);
      HexPair(h[0], h[1]);
      assert FromHex(h)[1..] == FromHex(h[2..]);
      assert LowerCased(h) == [Lower(h[0]), Lower(h[1])] + LowerCased(h[2..]);
    }
  }

  lemma PairInFront(high: Byte, low: Byte, h: seq<Byte>)
    requires IsHex(high) && IsHex(low) && AllHex(h)
    ensures AllHex([high, low] + h) && FromHex([high, low] + h) == [HexByte(high, low)] + FromHex(h)
  {
    hide HexByte, IsHex;
    assert ([high, low] + h)[2..] == h;
  }

  lemma {:induction false} BytesOfHexOfBytes(b: seq<Byte>)
    ensures AllHex(ToHex(b)) && FromHex(ToHex(b)) == b
  {
    hide HexByte, HighDigit, LowDigit, IsHex;
    if b != [] {
      BytesOfHexOfBytes(b[1..]);
      HexDigits(b[0]);
      PairInFront(HighDigit(b[0]), LowDigit(b[0]), ToHex(b[1..]));
    }
  }

  lemma PadForIsValid(n: nat)
    ensures ValidPad(PadFor(n)) && Dropped(PadFor(n)) == |ZeroBytes(n)|
  {
  }

  // Every even-length hex string encodes, and its encoding decodes to the string in lower case.
  lemma DecodeUndoesEncode(h: seq<Byte>)
    requires AllHex(h)
    ensures Encode(h).Ok? && Decode(Encode(h).text) == Ok(LowerCased(h))
  {
    hide EncodeBytes, Bytes, ValuesOf, IsShaped, Decode, ZeroBytes, PadFor, Dropped, IsHex;
    var b := FromHex(h);
    var t := EncodeBytes(b);
    EncodedReadsBack(b);
    ShapedIsClean(t, PadFor(|b|), false);
    PadForIsValid(|b|);
    DecodeOfClean(t);
    assert (b + ZeroBytes(|b|))[..|b|] == b;
    HexOfBytesOfHex(h);
  }
}
