// The alphabets, the accepted input, the errors, and the test vectors of section 10 of RFC 4648.
module Base32Vectors {
  import opened CTypes
  import opened Base32Group
  import opened Base32
  import opened Base32Laws

  // ----- alphabets

  // "0123456789ABCDEFGHIJKLMNOPQRSTUV"
  const ALPHABET: seq<Byte> :=
    [48, 49, 50, 51, 52, 53, 54, 55, 56, 57, 65, 66, 67, 68, 69, 70, 71, 72, 73, 74, 75, 76, 77, 78,
     79, 80, 81, 82, 83, 84, 85, 86]

  // "0123456789abcdef" and "0123456789ABCDEF"
  const LOWER_HEX: seq<Byte> := [48, 49, 50, 51, 52, 53, 54, 55, 56, 57, 97, 98, 99, 100, 101, 102]
  const UPPER_HEX: seq<Byte> := [48, 49, 50, 51, 52, 53, 54, 55, 56, 57, 65, 66, 67, 68, 69, 70]

  lemma SymbolsAre(v: Byte)
    requires v < 32
    ensures Symbol(v) == ALPHABET[v]
  {
  }

  lemma HexDigitsAre(v: Byte)
    requires v < 16
    ensures HexDigit(v) == LOWER_HEX[v] && HexValue(LOWER_HEX[v]) == v && HexValue(UPPER_HEX[v]) == v
  {
  }

  lemma HexExactly(c: Byte)
    ensures IsHex(c) <==> c in LOWER_HEX || c in UPPER_HEX
  {
  }

  // The encoder accepts exactly hex strings of even length; an odd length is reported first.
  lemma EncodeAcceptsExactly(h: seq<Byte>)
    ensures Encode(h).Ok? <==> |h| % 2 == 0 && forall i :: 0 <= i < |h| ==> h[i] in LOWER_HEX || h[i] in UPPER_HEX
    ensures Encode(h).Err? ==> Encode(h).error == if |h| % 2 == 1 then OddLength else NotHexadecimal
  {
    hide IsHex;
    forall c: Byte
      ensures IsHex(c) <==> c in LOWER_HEX || c in UPPER_HEX
    {
      HexExactly(c);
    }
  }

  // The decoder knows the digits and the letters A to V in either case.
  lemma AlphabetExactly(c: Byte)
    ensures InAlphabet(c) <==> 48 <= c <= 57 || 65 <= c <= 86 || 97 <= c <= 118
  {
  }

  lemma ValuesAre(v: Byte)
    requires v < 32
    ensures ValueOf(ALPHABET[v]) == v && (v >= 10 ==> ValueOf(ALPHABET[v] + 32) == v)
  {
  }

  // ----- errors of the decoder

  // The characters before the k-th one are accepted so far.
  predicate AcceptedSoFar(s: seq<Byte>, k: nat) {
    k <= |s| && Clean(s[..k], false)
  }

  lemma {:induction false} CleanStep(t: seq<Byte>, c: Byte, padded: bool)
    ensures Clean(t + [c], padded) <==>
      Clean(t, padded) && (c == PAD || (!padded && PadCount(t) == 0 && InAlphabet(c)))
    ensures PadCount(t + [c]) == PadCount(t) + if c == PAD then 1 else 0
  {
    hide InAlphabet;
    if t == [] {
      assert [c][1..] == [];
    } else {
      assert (t + [c])[1..] == t[1..] + [c];
      CleanStep(t[1..], c, t[0] == PAD);
    }
  }

  lemma {:induction false} ScanSoFar(s: seq<Byte>, k: nat) returns (x: seq<Byte>)
    requires AcceptedSoFar(s, k)
    ensures Scan(s, 0, [], 0) == Scan(s, k, x, PadCount(s[..k]))
    decreases k
  {
    hide InAlphabet, ValueOf;
    if k == 0 {
      x := [];
    } else {
      assert s[..k] == s[..k - 1] + [s[k - 1]];
      CleanStep(s[..k - 1], s[k - 1], false);
      x := ScanSoFar(s, k - 1);
      x := x + [if s[k - 1] == PAD then 0 else ValueOf(s[k - 1])];
    }
  }

  // The first character that offends is reported with its place in its group; one behind padding with the place before.
  lemma FirstOffence(s: seq<Byte>, k: nat)
    requires |s| % 8 == 0 && k < |s| && AcceptedSoFar(s, k) && !AcceptedSoFar(s, k + 1)
    ensures Decode(s) ==
      Err(if PAD in s[..k] then PaddingInside(k % 8 - 1) else InvalidCharacter(k % 8, s[k]))
  {
    hide InAlphabet, ValueOf;
    assert s[..k + 1] == s[..k] + [s[k]];
    CleanStep(s[..k], s[k], false);
    PadsCounted(s[..k]);
    var x := ScanSoFar(s, k);
  }

  lemma {:induction false} PadsCounted(t: seq<Byte>)
    ensures PadCount(t) > 0 <==> PAD in t
  {
    if t != [] {
      PadsCounted(t[1..]);
      assert PAD in t <==> t[0] == PAD || PAD in t[1..];
    }
  }

  // Without an offence only the length and the number of pads can be wrong.
  lemma OtherErrors(s: seq<Byte>)
    ensures |s| % 8 != 0 ==> Decode(s) == Err(NotMultipleOfEight)
    ensures |s| % 8 == 0 && AcceptedSoFar(s, |s|) && PadCount(s) !in {0, 1, 3, 4, 6} ==>
      Decode(s) == Err(InvalidPadding(PadCount(s)))
  {
    hide InAlphabet;
    if |s| % 8 == 0 && AcceptedSoFar(s, |s|) {
      var x := ScanSoFar(s, |s|);
      assert s[..|s|] == s;
    }
  }

  // ----- test vectors: the prefixes of "foobar"

  // ""
  lemma Vector0()
    ensures Encode([]) ==
      Ok([])
  {
    assert FromHex([]) == [];
  }

  // "f"
  lemma Vector1()
    ensures Encode([54, 54]) ==
      Ok([67, 79, 61, 61, 61, 61, 61, 61])
  {
    assert FromHex([54, 54]) == [102];
  }

  // "fo"
  lemma Vector2()
    ensures Encode([54, 54, 54, 102]) ==
      Ok([67, 80, 78, 71, 61, 61, 61, 61])
  {
    assert FromHex([54, 54, 54, 102]) == [102, 111];
  }

  // "foo"
  lemma Vector3()
    ensures Encode([54, 54, 54, 102, 54, 102]) ==
      Ok([67, 80, 78, 77, 85, 61, 61, 61])
  {
    assert FromHex([54, 54, 54, 102, 54, 102]) == [102, 111, 111];
  }

  // "foob"
  lemma Vector4()
    ensures Encode([54, 54, 54, 102, 54, 102, 54, 50]) ==
      Ok([67, 80, 78, 77, 85, 79, 71, 61])
  {
    assert FromHex([54, 54, 54, 102, 54, 102, 54, 50]) == [102, 111, 111, 98];
  }

  // "fooba"
  lemma Vector5()
    ensures Encode([54, 54, 54, 102, 54, 102, 54, 50, 54, 49]) ==
      Ok([67, 80, 78, 77, 85, 79, 74, 49])
  {
    assert FromHex([54, 54, 54, 102, 54, 102, 54, 50, 54, 49]) == [102, 111, 111, 98, 97];
  }

  // "foobar"
  lemma Vector6()
    ensures Encode([54, 54, 54, 102, 54, 102, 54, 50, 54, 49, 55, 50]) ==
      Ok([67, 80, 78, 77, 85, 79, 74, 49, 69, 56, 61, 61, 61, 61, 61, 61])
  {
    hide Encode, FromHex, EncodeBytes, IsHex;
    HexOfFoobar();
    GroupsOfFoobar();
    EncodeHex([54, 54, 54, 102, 54, 102, 54, 50, 54, 49, 55, 50]);
  }

  lemma HexOfFoobar()
    ensures FromHex([54, 54, 54, 102, 54, 102, 54, 50, 54, 49, 55, 50]) == [102, 111, 111, 98, 97, 114]
    ensures forall i :: 0 <= i < 12 ==> IsHex([54, 54, 54, 102, 54, 102, 54, 50, 54, 49, 55, 50][i])
  {
  }

  lemma GroupsOfFoobar()
    ensures EncodeBytes([102, 111, 111, 98, 97, 114]) ==
      [67, 80, 78, 77, 85, 79, 74, 49, 69, 56, 61, 61, 61, 61, 61, 61]
  {
  }

  lemma EncodeHex(h: seq<Byte>)
    requires |h| % 2 == 0 && forall i :: 0 <= i < |h| ==> IsHex(h[i])
    ensures Encode(h) == Ok(EncodeBytes(FromHex(h)))
  {
  }
}
