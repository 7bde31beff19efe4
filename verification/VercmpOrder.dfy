// What the version comparison means: when swapping its arguments swaps its sign, and how numbers are ordered.
module VercmpOrder {
  import opened Vercmp

  function Sign(r: int): int {
    if r < 0 then -1 else if r > 0 then 1 else 0
  }

  // The version is empty or ends in a letter or digit.
  predicate NoTrail(v: string) {
    v == "" || IsAlnum(v[|v| - 1])
  }

  lemma {:induction false} CommonIsSymmetric(s: string, i: nat, e: nat, t: string, j: nat, f: nat)
    requires i <= e <= |s| && j <= f <= |t|
    ensures Common(s, i, e, t, j, f) == Common(t, j, f, s, i, e)
    decreases e - i
  {
    if i < e && j < f && s[i] == t[j] {
      CommonIsSymmetric(s, i + 1, e, t, j + 1, f);
    }
  }

  predicate Mirrored(v: Verdict, w: Verdict) {
    match v
    case Decided(r) => r != 0 && w.Decided? && Sign(w.r) == -Sign(r)
    case GoOn(i, j) => w == GoOn(j, i)
  }

  lemma SegmentsMirror(a: string, p: nat, e: nat, b: string, q: nat, f: nat)
    requires p <= e <= |a| && q <= f <= |b|
    ensures Mirrored(Segments(a, p, e, b, q, f), Segments(b, q, f, a, p, e))
  {
    CommonIsSymmetric(a, p, e, b, q, f);
  }

  lemma RoundMirrors(a: string, i: nat, b: string, j: nat)
    requires NoTrail(a) && NoTrail(b) && i < |a| && j < |b|
    ensures Mirrored(Round(a, i, b, j), Round(b, j, a, i))
  {
    hide SkipFrom, AlphaEnd, DigitEnd, ZeroEnd, Segments;
    var p, q := SkipFrom(a, i), SkipFrom(b, j);
    assert p < |a| && q < |b|;
    var e, f := DigitEnd(a, p), DigitEnd(b, q);
    SegmentsMirror(a, p, AlphaEnd(a, p), b, q, AlphaEnd(b, q));
    SegmentsMirror(a, ZeroEnd(a, p, e), e, b, ZeroEnd(b, q, f), f);
  }

  lemma {:induction false} CompareMirrors(a: string, i: nat, b: string, j: nat)
    requires NoTrail(a) && NoTrail(b) && i <= |a| && j <= |b|
    ensures Sign(Compare(a, i, b, j)) == -Sign(Compare(b, j, a, i))
    decreases |a| - i + |b| - j
  {
    hide Round;
    if i < |a| && j < |b| {
      RoundMirrors(a, i, b, j);
      var v := Round(a, i, b, j);
      if v.GoOn? {
        CompareMirrors(a, v.i, b, v.j);
      }
    }
  }

  // A version that ends in a separator is below its extension by a letter, which in turn is its equal.
  lemma {:induction false} TrailBreaks(a: string, b: string, i: nat)
    requires !NoTrail(a) && b == a + "a" && i < |a|
    ensures Compare(a, i, b, i) == -1 && Compare(b, i, a, i) == 0
    decreases |a| - i
  {
    SameRounds(a, b, i);
    hide Round;
    var v := Round(a, i, b, i);
    assert Compare(a, i, b, i) == Compare(a, v.i, b, v.j);
    if v.i < |a| {
      TrailBreaks(a, b, v.i);
    }
  }

  lemma SameSpans(a: string, b: string, i: nat)
    requires !NoTrail(a) && b == a + "a" && i <= |a|
    ensures SkipFrom(b, i) == SkipFrom(a, i)
    ensures i < |a| ==> AlphaEnd(b, i) == AlphaEnd(a, i) < |a|
    ensures DigitEnd(b, i) == DigitEnd(a, i) && (i < |a| ==> DigitEnd(a, i) < |a|)
    decreases |a| - i
  {
    if i < |a| {
      SameSpans(a, b, i + 1);
    }
  }

  lemma {:induction false} SameSegments(a: string, b: string, i: nat, e: nat)
    requires i <= e <= |a| && a <= b
    ensures Common(a, i, e, b, i, e) == Common(b, i, e, a, i, e) == e - i
    ensures ZeroEnd(a, i, e) == ZeroEnd(b, i, e)
    decreases e - i
  {
    if i < e {
      assert a[i] == b[i];
      SameSegments(a, b, i + 1, e);
    }
  }

  lemma SameRounds(a: string, b: string, i: nat)
    requires !NoTrail(a) && b == a + "a" && i < |a|
    ensures var v, w := Round(a, i, b, i), Round(b, i, a, i);
      && v.GoOn? && w.GoOn? && i < v.i == v.j == w.j
      && w.i == if v.i == |a| then |b| else v.i
  {
    hide SkipFrom, AlphaEnd, DigitEnd, ZeroEnd, Common;
    var p := SkipFrom(a, i);
    SameSpans(a, b, i);
    SameSpans(a, b, p);
    if p < |a| {
      var e := if IsAlpha(a[p]) then AlphaEnd(a, p) else DigitEnd(a, p);
      SameSegments(a, b, p, e);
      SameSegments(a, b, ZeroEnd(a, p, e), e);
      assert a[p] == b[p];
    } else {
      assert AlphaEnd(b, |a|) == |b|;
      assert ZeroEnd(a, |a|, |a|) == ZeroEnd(b, |a|, |a|) == |a|;
    }
  }

  // Swapping the arguments swaps the sign against every well-formed version exactly for well-formed versions.
  lemma AntisymmetricExactly(a: string)
    ensures NoTrail(a) <==> forall b: string :: NoTrail(b) ==> Sign(Compared(a, b)) == -Sign(Compared(b, a))
  {
    if NoTrail(a) {
      forall b: string | NoTrail(b)
        ensures Sign(Compared(a, b)) == -Sign(Compared(b, a))
      {
        CompareMirrors(a, 0, b, 0);
      }
    } else {
      var b := a + "a";
      TrailBreaks(a, b, 0);
      assert NoTrail(b) && Sign(Compared(a, b)) == -1 && Sign(Compared(b, a)) == 0;
    }
  }

  lemma LetterSegments(a: string, b: string)
    requires a != "" && b != "" && (forall c :: c in a ==> IsAlpha(c)) && (forall c :: c in b ==> IsAlpha(c))
    ensures SkipFrom(a, 0) == 0 && SkipFrom(b, 0) == 0
    ensures AlphaEnd(a, 0) == |a| && AlphaEnd(b, 0) == |b|
    ensures Round(a, 0, b, 0) == Segments(a, 0, |a|, b, 0, |b|)
  {
    assert a[0] in a && b[0] in b;
  }

  lemma {:induction false} CommonUpToEnd(s: string, t: string, i: nat)
    requires i <= |s| && i <= |t|
    ensures i + Common(s, i, |s|, t, i, |t|) < |s| && i + Common(s, i, |s|, t, i, |t|) < |t| <==>
      exists l :: i <= l < |s| && l < |t| && s[l] != t[l]
    decreases |s| - i
  {
    if i < |s| && i < |t| && s[i] == t[i] {
      CommonUpToEnd(s, t, i + 1);
    }
  }

  // Versions of letters tie exactly when one is a prefix of the other.
  lemma LettersTieWithPrefixes(a: string, b: string)
    requires a != "" && b != "" && (forall c :: c in a ==> IsAlpha(c)) && (forall c :: c in b ==> IsAlpha(c))
    ensures Compared(a, b) == 0 <==> a <= b || b <= a
  {
    LetterSegments(a, b);
    CommonUpToEnd(a, b, 0);
    hide Common, Round;
    var k := Common(a, 0, |a|, b, 0, |b|);
    if k < |a| && k < |b| {
      assert Compare(a, 0, b, 0) == a[k] as int - b[k] as int;
    } else {
      EndsCompare(a, b);
    }
  }

  lemma EndsCompare(a: string, b: string)
    ensures Compare(a, |a|, b, |b|) == 0
  {
  }

  // So the comparison is not transitive on letters.
  lemma LettersAreNotTransitive()
    ensures Compared("ab", "a") == 0 && Compared("a", "ac") == 0 && Compared("ab", "ac") != 0
  {
    hide Compared;
    LettersTieWithPrefixes("ab", "a");
    LettersTieWithPrefixes("a", "ac");
    LettersTieWithPrefixes("ab", "ac");
    assert "ab"[1] == 'b' && "ac"[1] == 'c';
  }
}
