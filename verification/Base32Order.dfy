// Encodings sort like the data they encode.
module Base32Order {
  import opened CTypes
  import opened Base32Group
  import opened Base32
  import opened Base32RoundTrip

  // Lexicographic order of equally long strings, from position k on.
  predicate LessFrom(s: seq<Byte>, t: seq<Byte>, k: nat)
    requires |s| == |t| && k <= |s|
    decreases |s| - k
  {
    k < |s| && (Before(s[k], t[k]) || (s[k] == t[k] && LessFrom(s, t, k + 1)))
  }

  predicate Less(s: seq<Byte>, t: seq<Byte>)
    requires |s| == |t|
  {
    LessFrom(s, t, 0)
  }

  lemma {:induction false} LessBehind(g: seq<Byte>, h: seq<Byte>, r: seq<Byte>, t: seq<Byte>, k: nat)
    requires |g| == |h| && |r| == |t| && k <= |r|
    ensures LessFrom(g + r, h + t, |g| + k) == LessFrom(r, t, k)
    decreases |r| - k
  {
    hide Before;
    if k < |r| {
      LessBehind(g, h, r, t, k + 1);
    }
  }

  lemma {:induction false} LessAppend(g: seq<Byte>, h: seq<Byte>, r: seq<Byte>, t: seq<Byte>, k: nat)
    requires |g| == |h| && |r| == |t| && k <= |g|
    ensures LessFrom(g + r, h + t, k) <==> LessFrom(g, h, k) || (g[k..] == h[k..] && Less(r, t))
    decreases |g| - k
  {
    hide Before;
    if k == |g| {
      LessBehind(g, h, r, t, 0);
    } else {
      LessAppend(g, h, r, t, k + 1);
      assert g[k..] == [g[k]] + g[k + 1..] && h[k..] == [h[k]] + h[k + 1..];
      assert (g + r)[k] == g[k] && (h + t)[k] == h[k];
      assert g[k..] == h[k..] <==> g[k] == h[k] && g[k + 1..] == h[k + 1..] by {
        if g[k..] == h[k..] {
          assert g[k..][1..] == g[k + 1..] && h[k..][1..] == h[k + 1..];
          assert g[k..][0] == h[k..][0];
        }
      }
    }
  }

  // Pairwise equivalent strings are ordered alike.
  lemma {:induction false} SameOrder(s: seq<Byte>, t: seq<Byte>, x: seq<Byte>, y: seq<Byte>, k: nat)
    requires |s| == |t| == |x| == |y| && k <= |s|
    requires forall i :: 0 <= i < |s| ==> (Before(s[i], t[i]) <==> Before(x[i], y[i])) && (s[i] == t[i] <==> x[i] == y[i])
    ensures LessFrom(s, t, k) == LessFrom(x, y, k)
    decreases |s| - k
  {
    hide Before;
    if k < |s| {
      SameOrder(s, t, x, y, k + 1);
    }
  }

  lemma LessStep(x: seq<Byte>, y: seq<Byte>, k: nat)
    requires |x| == |y| && k < |x|
    ensures LessFrom(x, y, k) == (Before(x[k], y[k]) || (x[k] == y[k] && LessFrom(x, y, k + 1)))
    ensures !LessFrom(x, y, |x|)
  {
  }

  lemma ListsOfEight(e: Eight, d: Eight)
    ensures Less(ListOf(e), ListOf(d)) == LessEight(e, d)
  {
    hide Before, LessFrom;
    var x, y := ListOf(e), ListOf(d);
    LessStep(x, y, 7);
    LessStep(x, y, 6);
    LessStep(x, y, 5);
    LessStep(x, y, 4);
    LessStep(x, y, 3);
    LessStep(x, y, 2);
    LessStep(x, y, 1);
    LessStep(x, y, 0);
  }

  lemma ListsOfFive(f: Five, g: Five)
    ensures Less(BytesOf(f), BytesOf(g)) == LessFive(f, g)
  {
    hide Before, LessFrom;
    var x, y := BytesOf(f), BytesOf(g);
    LessStep(x, y, 4);
    LessStep(x, y, 3);
    LessStep(x, y, 2);
    LessStep(x, y, 1);
    LessStep(x, y, 0);
  }

  lemma {:induction false} NotLessThanItself(z: seq<Byte>, k: nat)
    requires k <= |z|
    ensures !LessFrom(z, z, k)
    decreases |z| - k
  {
    if k < |z| {
      NotLessThanItself(z, k + 1);
    }
  }

  lemma PaddedKeepsOrder(g: seq<Byte>, h: seq<Byte>)
    requires 1 <= |g| == |h| <= 5
    ensures Less(g, h) == LessFive(ZeroPadded(g), ZeroPadded(h))
    ensures g == h <==> ZeroPadded(g) == ZeroPadded(h)
  {
    hide LessFive, Before, LessFrom;
    var z := ZeroBytes(|g|);
    assert BytesOf(ZeroPadded(g)) == g + z && BytesOf(ZeroPadded(h)) == h + z;
    assert (g + z)[..|g|] == g && (h + z)[..|g|] == h;
    ListsOfFive(ZeroPadded(g), ZeroPadded(h));
    LessAppend(g, h, z, z, 0);
    NotLessThanItself(z, 0);
  }

  // Each character of a group's text is ordered like the value at its place.
  lemma CharacterOrder(g: seq<Byte>, h: seq<Byte>, i: nat)
    requires 1 <= |g| == |h| <= 5 && i < 8
    ensures |ListOf(Split(ZeroPadded(g)))| == |ListOf(Split(ZeroPadded(h)))| == 8
    ensures var x, y := ListOf(Split(ZeroPadded(g)))[i], ListOf(Split(ZeroPadded(h)))[i];
      var s, t := EncodeGroup(g)[i], EncodeGroup(h)[i];
      (Before(s, t) <==> Before(x, y)) && (s == t <==> x == y)
  {
    hide Split, Symbol, ListOf, ZeroPadded;
    SplitIsFiveBits(ZeroPadded(g));
    SplitIsFiveBits(ZeroPadded(h));
    GroupTail(g);
    GroupTail(h);
    var x, y := ListOf(Split(ZeroPadded(g)))[i], ListOf(Split(ZeroPadded(h)))[i];
    SymbolsKeepOrder(x, y);
  }

  lemma GroupsKeepOrder(g: seq<Byte>, h: seq<Byte>)
    requires 1 <= |g| == |h| <= 5
    ensures Less(g, h) == Less(EncodeGroup(g), EncodeGroup(h))
    ensures g == h <==> EncodeGroup(g) == EncodeGroup(h)
  {
    hide Split, ListOf, ZeroPadded, EncodeGroup, Before, LessFrom, LessFive, LessEight;
    var f, k := ZeroPadded(g), ZeroPadded(h);
    var x, y := ListOf(Split(f)), ListOf(Split(k));
    forall i | 0 <= i < 8
      ensures |x| == |y| == 8
      ensures Before(EncodeGroup(g)[i], EncodeGroup(h)[i]) <==> Before(x[i], y[i])
      ensures EncodeGroup(g)[i] == EncodeGroup(h)[i] <==> x[i] == y[i]
    {
      CharacterOrder(g, h, i);
    }
    assert |x| == 8 by { SplitIsFiveBits(f); }
    assert |y| == 8 by { SplitIsFiveBits(k); }
    SameOrder(EncodeGroup(g), EncodeGroup(h), x, y, 0);
    ListsOfEight(Split(f), Split(k));
    SplitKeepsOrder(f, k);
    PaddedKeepsOrder(g, h);
    assert EncodeGroup(g) == EncodeGroup(h) <==> x == y;
    ListLength(Split(f));
    ListLength(Split(k));
  }

  // For equally long data the encodings compare, byte by byte, as the data does.
  lemma {:induction false} EncodingKeepsOrder(b: seq<Byte>, c: seq<Byte>)
    requires |b| == |c|
    ensures Less(EncodeBytes(b), EncodeBytes(c)) <==> Less(b, c)
  {
    hide EncodeGroup, EncodeBytes, Before, LessFrom;
    EncodeBytesSteps(b);
    EncodeBytesSteps(c);
    if b == [] {
      assert c == [];
    } else if |b| <= 5 {
      GroupsKeepOrder(b, c);
    } else {
      GroupsKeepOrder(b[..5], c[..5]);
      EncodingKeepsOrder(b[5..], c[5..]);
      LessAppend(b[..5], c[..5], b[5..], c[5..], 0);
      LessAppend(EncodeGroup(b[..5]), EncodeGroup(c[..5]), EncodeBytes(b[5..]), EncodeBytes(c[5..]), 0);
      assert b == b[..5] + b[5..] && c == c[..5] + c[5..];
    }
  }
}
