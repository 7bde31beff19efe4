// Round trips, accepted texts and order of the base32hex codec.
module Base32Laws {
  import opened CTypes
  import opened Base32Group
  import opened Base32

  // A text as the decoder wants it: symbols first, then only padding.
  predicate Clean(t: seq<Byte>, padded: bool) {
    t == []
    || (t[0] == PAD && Clean(t[1..], true))
    || (t[0] != PAD && !padded && InAlphabet(t[0]) && Clean(t[1..], false))
  }

  function PadCount(t: seq<Byte>): (n: nat)
    ensures n <= |t|
  {
    if t == [] then 0 else (if t[0] == PAD then 1 else 0) + PadCount(t[1..])
  }

  function ValuesOf(t: seq<Byte>): (x: seq<Byte>)
    ensures |x| == |t|
  {
    if t == [] then [] else [if t[0] == PAD then 0 else ValueOf(t[0])] + ValuesOf(t[1..])
  }

  lemma {:induction false} ScanMeaning(s: seq<Byte>, k: nat, x: seq<Byte>, pad: nat)
    requires k <= |s|
    ensures Scan(s, k, x, pad).Values? <==> Clean(s[k..], pad > 0)
    ensures Clean(s[k..], pad > 0) ==>
      Scan(s, k, x, pad) == Values(x + ValuesOf(s[k..]), pad + PadCount(s[k..]))
    decreases |s| - k
  {
    if k < |s| {
      assert s[k..][1..] == s[k + 1..];
      var v := if s[k] == PAD then 0 else ValueOf(s[k]);
      ScanMeaning(s, k + 1, x + [v], if s[k] == PAD then pad + 1 else pad);
      assert x + [v] + ValuesOf(s[k + 1..]) == x + ([v] + ValuesOf(s[k + 1..]));
    }
  }

  predicate IsShaped(t: seq<Byte>, pad: nat) {
    && pad <= |t|
    && t[|t| - pad..] == Padding(pad)
    && forall i :: 0 <= i < |t| - pad ==> InAlphabet(t[i])
  }

  lemma {:induction false} CleanIsShaped(t: seq<Byte>, padded: bool)
    requires Clean(t, padded)
    ensures IsShaped(t, PadCount(t)) && (padded ==> PadCount(t) == |t|)
  {
    hide InAlphabet;
    if t != [] {
      CleanIsShaped(t[1..], t[0] == PAD);
      if t[0] == PAD {
        assert t[1..] == t[1..][0..] == Padding(|t| - 1);
        assert t == t[0..] == Padding(|t|);
      } else {
        ShapedAfterSymbol(t, PadCount(t[1..]));
      }
    }
  }

  lemma ShapedAfterSymbol(t: seq<Byte>, pad: nat)
    requires t != [] && InAlphabet(t[0]) && IsShaped(t[1..], pad)
    ensures IsShaped(t, pad)
  {
    hide InAlphabet, Padding;
    assert t[|t| - pad..] == t[1..][|t| - 1 - pad..];
    forall i | 0 <= i < |t| - pad
      ensures InAlphabet(t[i])
    {
      if i > 0 {
        assert t[i] == t[1..][i - 1];
      }
    }
  }

  lemma {:induction false} ShapedIsClean(t: seq<Byte>, pad: nat, padded: bool)
    requires IsShaped(t, pad) && (padded ==> pad == |t|)
    ensures Clean(t, padded) && PadCount(t) == pad
  {
    if t != [] {
      if pad == |t| {
        assert Padding(pad)[1..] == Padding(pad - 1);
        assert t == Padding(pad);
        ShapedIsClean(t[1..], pad - 1, true);
      } else {
        assert t[1..][|t| - 1 - pad..] == t[|t| - pad..];
        AlphabetIsSymbols(t[0]);
        ShapedIsClean(t[1..], pad, false);
      }
    }
  }

  // What the decoder accepts: multiples of eight, symbols of either case, one closing run of 0, 1, 3, 4 or 6 pads.
  lemma AcceptedExactly(s: seq<Byte>)
    ensures Decode(s).Ok? <==>
      |s| % 8 == 0 && exists pad :: IsShaped(s, pad) && pad in {0, 1, 3, 4, 6}
  {
    hide InAlphabet;
    assert s[0..] == s;
    ScanMeaning(s, 0, [], 0);
    if Clean(s, false) {
      CleanIsShaped(s, false);
      assert IsShaped(s, PadCount(s));
    }
    forall pad | IsShaped(s, pad)
      ensures Clean(s, false) && PadCount(s) == pad
    {
      ShapedIsClean(s, pad, false);
    }
  }

  lemma DecodeOfClean(s: seq<Byte>)
    requires |s| % 8 == 0 && Clean(s, false) && ValidPad(PadCount(s))
    ensures |Bytes(ValuesOf(s))| >= Dropped(PadCount(s))
    ensures Decode(s) == Ok(ToHex(Bytes(ValuesOf(s))[..|Bytes(ValuesOf(s))| - Dropped(PadCount(s))]))
  {
    assert s[0..] == s;
    hide InAlphabet, Bytes, ToHex, Scan, Clean, PadCount, ValuesOf;
    ScanMeaning(s, 0, [], 0);
    assert [] + ValuesOf(s) == ValuesOf(s);
  }
}
