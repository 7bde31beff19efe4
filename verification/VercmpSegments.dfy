// What the comparison means on all versions without trailing separators, and when it is transitive.
module VercmpSegments {
  import opened Vercmp
  import opened VercmpOrder
  import opened VercmpNumbers

  // A version is read as its numbers and its runs of letters, whatever separates them.
  datatype Segment = Number(n: nat) | Letters(s: string)

  function SegmentAt(v: string, p: nat): Segment
    requires p < |v| && IsAlnum(v[p])
  {
    if IsDigit(v[p]) then Number(Value(v, p, DigitEnd(v, p))) else Letters(v[p..AlphaEnd(v, p)])
  }

  function SegmentEnd(v: string, p: nat): (e: nat)
    requires p < |v| && IsAlnum(v[p])
    ensures p < e <= |v|
  {
    if IsDigit(v[p]) then DigitEnd(v, p) else AlphaEnd(v, p)
  }

  function SegmentsOf(v: string, i: nat): seq<Segment>
    requires i <= |v|
    decreases |v| - i
  {
    var p := SkipFrom(v, i);
    if p == |v| then [] else [SegmentAt(v, p)] + SegmentsOf(v, SegmentEnd(v, p))
  }

  // Letters that run out on one side count as equal.
  function CompareLetters(s: string, t: string): int {
    if s == "" || t == "" then 0
    else if s[0] != t[0] then Sign(s[0] as int - t[0] as int)
    else CompareLetters(s[1..], t[1..])
  }

  // A number is above letters.
  function CompareSegment(x: Segment, y: Segment): int {
    match (x, y)
    case (Number(m), Number(n)) => Sign(m - n)
    case (Letters(s), Letters(t)) => CompareLetters(s, t)
    case (Number(_), Letters(_)) => 1
    case (Letters(_), Number(_)) => -1
  }

  // The first segments that differ decide; otherwise the version with more segments is above.
  function CompareSegmentLists(xs: seq<Segment>, ys: seq<Segment>): int {
    if xs == [] || ys == [] then (if xs != [] then 1 else if ys != [] then -1 else 0)
    else if CompareSegment(xs[0], ys[0]) != 0 then CompareSegment(xs[0], ys[0])
    else CompareSegmentLists(xs[1..], ys[1..])
  }

  lemma {:induction false} CommonOfLetters(a: string, p: nat, e: nat, b: string, q: nat, f: nat)
    requires p <= e <= |a| && q <= f <= |b|
    ensures var k := Common(a, p, e, b, q, f);
      CompareLetters(a[p..e], b[q..f]) ==
        if p + k < e && q + k < f then Sign(a[p + k] as int - b[q + k] as int) else 0
    ensures var k := Common(a, p, e, b, q, f);
      p + k < e && q + k < f ==> a[p + k] != b[q + k]
    decreases e - p
  {
    if p < e && q < f {
      assert a[p..e][1..] == a[p + 1..e] && b[q..f][1..] == b[q + 1..f];
      if a[p] == b[q] {
        CommonOfLetters(a, p + 1, e, b, q + 1, f);
      }
    }
  }

  // One round compares one segment on each side.
  lemma SegmentRound(a: string, i: nat, b: string, j: nat)
    requires i < |a| && j < |b| && SkipFrom(a, i) < |a| && SkipFrom(b, j) < |b|
    ensures var p, q := SkipFrom(a, i), SkipFrom(b, j);
      var c := CompareSegment(SegmentAt(a, p), SegmentAt(b, q));
      if c == 0 then Round(a, i, b, j) == GoOn(SegmentEnd(a, p), SegmentEnd(b, q))
      else Round(a, i, b, j).Decided? && Sign(Round(a, i, b, j).r) == c
  {
    hide SkipFrom, DigitEnd, AlphaEnd, Value, Round, CompareLetters;
    var p, q := SkipFrom(a, i), SkipFrom(b, j);
    if IsDigit(a[p]) && IsDigit(b[q]) {
      NumberRound(a, i, b, j);
    } else if IsAlpha(a[p]) && IsAlpha(b[q]) {
      LetterRound(a, i, b, j);
    } else {
      MixedRound(a, i, b, j);
    }
  }

  lemma LetterRound(a: string, i: nat, b: string, j: nat)
    requires i < |a| && j < |b| && IsAlpha(At(a, SkipFrom(a, i))) && IsAlpha(At(b, SkipFrom(b, j)))
    ensures var p, q := SkipFrom(a, i), SkipFrom(b, j);
      var e, f := AlphaEnd(a, p), AlphaEnd(b, q);
      var c := CompareLetters(a[p..e], b[q..f]);
      if c == 0 then Round(a, i, b, j) == GoOn(e, f)
      else Round(a, i, b, j).Decided? && Sign(Round(a, i, b, j).r) == c
  {
    hide SkipFrom, DigitEnd, AlphaEnd, ZeroEnd, Common, CompareLetters;
    var p, q := SkipFrom(a, i), SkipFrom(b, j);
    CommonOfLetters(a, p, AlphaEnd(a, p), b, q, AlphaEnd(b, q));
  }

  lemma MixedRound(a: string, i: nat, b: string, j: nat)
    requires i < |a| && j < |b|
    ensures var x, y := At(a, SkipFrom(a, i)), At(b, SkipFrom(b, j));
      && (IsDigit(x) && IsAlpha(y) ==> Round(a, i, b, j) == Decided(1))
      && (IsAlpha(x) && IsDigit(y) ==> Round(a, i, b, j) == Decided(-1))
  {
    hide SkipFrom, DigitEnd, AlphaEnd, ZeroEnd, Segments;
  }

  lemma {:induction false} SegmentsCompare(a: string, i: nat, b: string, j: nat)
    requires NoTrail(a) && NoTrail(b) && i <= |a| && j <= |b|
    ensures Sign(Compare(a, i, b, j)) == CompareSegmentLists(SegmentsOf(a, i), SegmentsOf(b, j))
    decreases |a| - i + |b| - j
  {
    hide Round, SegmentAt, SegmentEnd, CompareSegment, SkipFrom;
    assert i < |a| ==> SkipFrom(a, i) < |a|;
    assert j < |b| ==> SkipFrom(b, j) < |b|;
    if i < |a| && j < |b| {
      SegmentRound(a, i, b, j);
      var v := Round(a, i, b, j);
      if v.GoOn? {
        SegmentsCompare(a, v.i, b, v.j);
      }
    }
  }

  lemma {:induction false} LettersCompareEqual(s: string)
    ensures CompareLetters(s, s) == 0
  {
    if s != "" {
      LettersCompareEqual(s[1..]);
    }
  }

  lemma SegmentComparesEqual(x: Segment)
    ensures CompareSegment(x, x) == 0
  {
    if x.Letters? {
      LettersCompareEqual(x.s);
    }
  }

  lemma {:induction false} SegmentListsCompareEqual(xs: seq<Segment>)
    ensures CompareSegmentLists(xs, xs) == 0
  {
    if xs != [] {
      SegmentComparesEqual(xs[0]);
      SegmentListsCompareEqual(xs[1..]);
    }
  }

  // The meaning of the comparison, with and without letters.
  lemma VersionsCompareAsSegments(a: string, b: string)
    requires NoTrail(a) && NoTrail(b)
    ensures Sign(Compared(a, b)) == CompareSegmentLists(SegmentsOf(a, 0), SegmentsOf(b, 0))
  {
    hide SegmentsOf, CompareSegmentLists;
    if a == b {
      SegmentListsCompareEqual(SegmentsOf(a, 0));
    } else {
      SegmentsCompare(a, 0, b, 0);
    }
  }

  // ----- transitivity

  predicate AllNumbers(xs: seq<Segment>) {
    forall x :: x in xs ==> x.Number?
  }

  lemma {:induction false} ThroughNumbers(xs: seq<Segment>, ys: seq<Segment>, zs: seq<Segment>)
    requires AllNumbers(ys)
    requires CompareSegmentLists(xs, ys) <= 0 && CompareSegmentLists(ys, zs) <= 0
    ensures CompareSegmentLists(xs, zs) <= 0
    decreases |ys|
  {
    if xs != [] && ys != [] && zs != [] {
      assert ys[0] in ys;
      if CompareSegment(xs[0], ys[0]) == 0 && CompareSegment(ys[0], zs[0]) == 0 {
        ThroughNumbers(xs[1..], ys[1..], zs[1..]);
      }
    }
  }

  predicate HasLetter(v: string) {
    exists k :: 0 <= k < |v| && IsAlpha(v[k])
  }

  lemma {:induction false} NoLettersAreNumbers(v: string, i: nat)
    requires !HasLetter(v) && i <= |v|
    ensures AllNumbers(SegmentsOf(v, i))
    decreases |v| - i
  {
    hide Value;
    var p := SkipFrom(v, i);
    if p < |v| {
      NoLettersAreNumbers(v, SegmentEnd(v, p));
    }
  }

  // The first letter at or behind i, in a version that has one there.
  function FirstLetter(v: string, i: nat): (s: nat)
    requires i <= |v| && exists k :: i <= k < |v| && IsAlpha(v[k])
    ensures i <= s < |v| && IsAlpha(v[s])
    ensures forall k :: i <= k < s ==> !IsAlpha(v[k])
    decreases |v| - i
  {
    if IsAlpha(v[i]) then i else FirstLetter(v, i + 1)
  }

  // A letter put behind the letters that end at p.
  function Inserted(v: string, p: nat, c: char): string
    requires p <= |v|
  {
    v[..p] + [c] + v[p..]
  }

  lemma SkipEndsAt(v: string, i: nat, p: nat)
    requires i <= p <= |v| && (forall k :: i <= k < p ==> !IsAlnum(v[k])) && (p < |v| ==> IsAlnum(v[p]))
    ensures SkipFrom(v, i) == p
  {
  }

  lemma LettersEndAt(v: string, i: nat, e: nat)
    requires i <= e <= |v| && (forall k :: i <= k < e ==> IsAlpha(v[k])) && (e < |v| ==> !IsAlpha(v[e]))
    ensures AlphaEnd(v, i) == e
  {
  }

  lemma DigitsEndAt(v: string, i: nat, e: nat)
    requires i <= e <= |v| && (forall k :: i <= k < e ==> IsDigit(v[k])) && (e < |v| ==> !IsDigit(v[e]))
    ensures DigitEnd(v, i) == e
  {
  }

  lemma {:induction false} SameDigitsSameValue(v: string, p: nat, e: nat, w: string, q: nat, f: nat)
    requires Digits(v, p, e) && Digits(w, q, f) && v[p..e] == w[q..f]
    ensures Value(v, p, e) == Value(w, q, f)
    decreases e - p
  {
    hide Pow10;
    assert e - p == |v[p..e]| == f - q;
    if p < e {
      assert v[p] == v[p..e][0] && w[q] == w[q..f][0];
      assert v[p + 1..e] == v[p..e][1..] && w[q + 1..f] == w[q..f][1..];
      SameDigitsSameValue(v, p + 1, e, w, q + 1, f);
    }
  }

  // Equal suffixes are scanned alike.
  lemma {:induction false} SameSpans(v: string, i: nat, w: string, j: nat)
    requires i <= |v| && j <= |w| && v[i..] == w[j..]
    ensures SkipFrom(v, i) - i == SkipFrom(w, j) - j
    ensures AlphaEnd(v, i) - i == AlphaEnd(w, j) - j
    ensures DigitEnd(v, i) - i == DigitEnd(w, j) - j
    decreases |v| - i
  {
    assert |v| - i == |v[i..]| == |w| - j;
    if i < |v| {
      assert v[i] == v[i..][0] && w[j] == w[j..][0];
      assert v[i + 1..] == v[i..][1..] && w[j + 1..] == w[j..][1..];
      SameSpans(v, i + 1, w, j + 1);
    }
  }

  lemma Drop(v: string, i: nat, w: string, j: nat, n: nat)
    requires i + n <= |v| && j + n <= |w| && v[i..] == w[j..]
    ensures v[i..i + n] == w[j..j + n] && v[i + n..] == w[j + n..]
    ensures i + n < |v| && j + n < |w| ==> v[i + n] == w[j + n]
  {
    assert v[i..i + n] == v[i..][..n] && w[j..j + n] == w[j..][..n];
    assert v[i + n..] == v[i..][n..] && w[j + n..] == w[j..][n..];
    if i + n < |v| && j + n < |w| {
      assert v[i + n] == v[i..][n] && w[j + n] == w[j..][n];
    }
  }

  lemma SameSegment(v: string, p: nat, w: string, q: nat)
    requires p < |v| && q < |w| && v[p..] == w[q..] && IsAlnum(v[p]) && IsAlnum(w[q]) && v[p] == w[q]
    ensures SegmentAt(v, p) == SegmentAt(w, q) && SegmentEnd(v, p) - p == SegmentEnd(w, q) - q
  {
    hide DigitEnd, AlphaEnd, Value;
    SameSpans(v, p, w, q);
    Drop(v, p, w, q, SegmentEnd(v, p) - p);
    if IsDigit(v[p]) {
      SameDigitsSameValue(v, p, DigitEnd(v, p), w, q, DigitEnd(w, q));
    }
  }

  lemma {:induction false} SameSuffix(v: string, i: nat, w: string, j: nat)
    requires i <= |v| && j <= |w| && v[i..] == w[j..]
    ensures SegmentsOf(v, i) == SegmentsOf(w, j)
    decreases |v| - i
  {
    hide SkipFrom, SegmentAt, SegmentEnd;
    assert |v| - i == |v[i..]| == |w| - j;
    SameSpans(v, i, w, j);
    var p, q := SkipFrom(v, i), SkipFrom(w, j);
    Drop(v, i, w, j, p - i);
    if p < |v| {
      SameSegment(v, p, w, q);
      var e := SegmentEnd(v, p);
      Drop(v, p, w, q, e - p);
      SameSuffix(v, e, w, SegmentEnd(w, q));
    }
  }

  // Before a position up to which two versions agree, numbers are read alike.
  lemma SameNumber(v: string, w: string, p: nat, i: nat, s: nat)
    requires i < s < p <= |v| && p <= |w| && v[..p] == w[..p] && IsDigit(v[i]) && IsAlpha(v[s])
    ensures DigitEnd(v, i) <= s && DigitEnd(w, i) == DigitEnd(v, i)
    ensures Value(w, i, DigitEnd(w, i)) == Value(v, i, DigitEnd(v, i))
  {
    hide DigitEnd, Value;
    assert forall k :: 0 <= k < p ==> v[..p][k] == v[k] && w[..p][k] == w[k];
    var e := DigitEnd(v, i);
    DigitsEndAt(w, i, e);
    assert v[i..e] == v[..p][i..e] == w[i..e];
    SameDigitsSameValue(w, i, e, v, i, e);
  }

  lemma SkipBefore(v: string, w: string, p: nat, i: nat, s: nat)
    requires i <= s < p <= |v| && p <= |w| && v[..p] == w[..p] && IsAlpha(v[s])
    ensures SkipFrom(v, i) <= s && SkipFrom(w, i) == SkipFrom(v, i)
  {
    hide SkipFrom;
    assert forall k :: 0 <= k < p ==> v[..p][k] == v[k] && w[..p][k] == w[k];
    SkipEndsAt(w, i, SkipFrom(v, i));
  }

  // At the run itself the segment grows by the letter, and behind it nothing changes.
  lemma FirstLetters(v: string, s: nat, c: char)
    requires s < |v| && IsAlpha(v[s]) && IsAlpha(c)
    ensures var p := AlphaEnd(v, s);
      var w := Inserted(v, p, c);
      && s < p && s < |w| && IsAlpha(w[s]) && AlphaEnd(w, s) == p + 1
      && SegmentAt(w, s) == Letters(v[s..p] + [c])
      && SegmentsOf(w, p + 1) == SegmentsOf(v, p)
  {
    hide AlphaEnd, SegmentsOf;
    var p := AlphaEnd(v, s);
    var w := Inserted(v, p, c);
    assert v[s..p] == v[..p][s..];
    assert w[s..p + 1] == v[s..p] + [c];
    LettersEndAt(w, s, p + 1);
    assert w[p + 1..] == v[p..];
    SameSuffix(w, p + 1, v, p);
  }

  // Inserting a letter behind the first run of letters changes that segment only.
  lemma {:induction false} SegmentsOfInserted(v: string, s: nat, c: char, i: nat) returns (k: nat)
    requires i <= s < |v| && IsAlpha(v[s]) && IsAlpha(c) && forall l :: i <= l < s ==> !IsAlpha(v[l])
    ensures var p, xs := AlphaEnd(v, s), SegmentsOf(v, i);
      && k < |xs| && xs[k] == Letters(v[s..p]) && (forall l :: 0 <= l < k ==> xs[l].Number?)
      && SegmentsOf(Inserted(v, p, c), i) == xs[k := Letters(v[s..p] + [c])]
    decreases s - i
  {
    hide SkipFrom, AlphaEnd, SegmentsOf;
    if SkipFrom(v, i) == s {
      k := 0;
      LettersFirst(v, s, c, i);
    } else {
      var x, e := NumberFirst(v, s, c, i);
      var k' := SegmentsOfInserted(v, s, c, e);
      k := k' + 1;
    }
  }

  lemma LettersFirst(v: string, s: nat, c: char, i: nat)
    requires i <= s < |v| && IsAlpha(v[s]) && IsAlpha(c) && SkipFrom(v, i) == s
    ensures var p := AlphaEnd(v, s);
      && SegmentsOf(v, i) == [Letters(v[s..p])] + SegmentsOf(v, p)
      && SegmentsOf(Inserted(v, p, c), i) == [Letters(v[s..p] + [c])] + SegmentsOf(v, p)
  {
    hide SkipFrom, DigitEnd, AlphaEnd, Value, SegmentsOf, Inserted;
    var p := AlphaEnd(v, s);
    var w := Inserted(v, p, c);
    SameBefore(v, p, c);
    SkipBefore(v, w, p, i, s);
    FirstLetters(v, s, c);
    SegmentsStep(v, i);
    SegmentsStep(w, i);
  }

  lemma SameBefore(v: string, p: nat, c: char)
    requires p <= |v|
    ensures |Inserted(v, p, c)| == |v| + 1 && Inserted(v, p, c)[..p] == v[..p]
  {
  }

  lemma SegmentsStep(v: string, i: nat)
    requires i <= |v| && SkipFrom(v, i) < |v|
    ensures var p := SkipFrom(v, i);
      SegmentsOf(v, i) == [SegmentAt(v, p)] + SegmentsOf(v, SegmentEnd(v, p))
  {
    hide SkipFrom, SegmentAt, SegmentEnd;
  }

  lemma NumberFirst(v: string, s: nat, c: char, i: nat) returns (x: Segment, e: nat)
    requires i <= s < |v| && IsAlpha(v[s]) && IsAlpha(c) && forall l :: i <= l < s ==> !IsAlpha(v[l])
    requires SkipFrom(v, i) != s
    ensures i < e <= s && x.Number? && SegmentsOf(v, i) == [x] + SegmentsOf(v, e)
    ensures SegmentsOf(Inserted(v, AlphaEnd(v, s), c), i) == [x] + SegmentsOf(Inserted(v, AlphaEnd(v, s), c), e)
  {
    hide SkipFrom, DigitEnd, AlphaEnd, Value;
    var p := AlphaEnd(v, s);
    var w := Inserted(v, p, c);
    assert p > s && v[..p] == w[..p];
    SkipBefore(v, w, p, i, s);
    var q := SkipFrom(v, i);
    SameNumber(v, w, p, q, s);
    e := DigitEnd(v, q);
    x := Number(Value(v, q, e));
  }

  lemma {:induction false} CompareUpdated(xs: seq<Segment>, k: nat, y: Segment, z: Segment)
    requires k < |xs|
    ensures CompareSegmentLists(xs[k := y], xs[k := z]) == CompareSegment(y, z)
  {
    if k > 0 {
      SegmentComparesEqual(xs[0]);
      CompareUpdated(xs[1..], k - 1, y, z);
      assert xs[k := y][1..] == xs[1..][k - 1 := y] && xs[k := z][1..] == xs[1..][k - 1 := z];
    } else {
      SegmentListsCompareEqual(xs[1..]);
      assert xs[0 := y][1..] == xs[1..] == xs[0 := z][1..];
    }
  }

  lemma {:induction false} LettersContinued(s: string, t: string, u: string)
    ensures CompareLetters(s + t, s + u) == CompareLetters(t, u)
  {
    if s == "" {
      assert s + t == t && s + u == u;
    } else {
      LettersContinued(s[1..], t, u);
      assert (s + t)[1..] == s[1..] + t && (s + u)[1..] == s[1..] + u;
    }
  }

  lemma LettersWithTail(s: string)
    ensures CompareLetters(s + ['b'], s) == 0 && CompareLetters(s, s + ['a']) == 0
    ensures CompareLetters(s + ['b'], s + ['a']) == 1
  {
    LettersContinued(s, ['b'], []);
    LettersContinued(s, [], ['a']);
    LettersContinued(s, ['b'], ['a']);
    assert s + [] == s;
  }

  // The segments of three versions that differ behind one run of letters only.
  lemma WedgeOfSegments(xs: seq<Segment>, k: nat, s: string)
    requires k < |xs| && xs[k] == Letters(s)
    ensures var above, below := xs[k := Letters(s + ['b'])], xs[k := Letters(s + ['a'])];
      && CompareSegmentLists(above, xs) == 0 && CompareSegmentLists(xs, below) == 0
      && CompareSegmentLists(above, below) == 1
  {
    hide CompareSegmentLists, CompareLetters;
    assert xs[k := xs[k]] == xs;
    LettersWithTail(s);
    CompareUpdated(xs, k, Letters(s + ['b']), xs[k]);
    CompareUpdated(xs, k, xs[k], Letters(s + ['a']));
    CompareUpdated(xs, k, Letters(s + ['b']), Letters(s + ['a']));
  }

  // A version with a letter ties with two versions that differ from each other.
  lemma LetterBreaksTransitivity(b: string) returns (a: string, c: string)
    requires NoTrail(b) && HasLetter(b)
    ensures NoTrail(a) && NoTrail(c)
    ensures Compared(a, b) == 0 && Compared(b, c) == 0 && Compared(a, c) > 0
  {
    hide SegmentsOf, CompareSegmentLists, Compared, AlphaEnd;
    var s := FirstLetter(b, 0);
    var p := AlphaEnd(b, s);
    a, c := Inserted(b, p, 'b'), Inserted(b, p, 'a');
    var k := SegmentsOfInserted(b, s, 'b', 0);
    var l := SegmentsOfInserted(b, s, 'a', 0);
    assert k == l;
    WedgeOfSegments(SegmentsOf(b, 0), k, b[s..p]);
    VersionsCompareAsSegments(a, b);
    VersionsCompareAsSegments(b, c);
    VersionsCompareAsSegments(a, c);
  }

  // Transitivity through a version holds, for all versions on both sides, exactly if it contains no letter.
  lemma TransitiveThroughExactly(b: string)
    requires NoTrail(b)
    ensures !HasLetter(b) <==>
      forall a: string, c: string ::
        NoTrail(a) && NoTrail(c) && Compared(a, b) <= 0 && Compared(b, c) <= 0 ==> Compared(a, c) <= 0
  {
    hide SegmentsOf, CompareSegmentLists, Compared, NoTrail;
    if HasLetter(b) {
      var a, c := LetterBreaksTransitivity(b);
    } else {
      NoLettersAreNumbers(b, 0);
      forall a: string, c: string | NoTrail(a) && NoTrail(c) && Compared(a, b) <= 0 && Compared(b, c) <= 0
        ensures Compared(a, c) <= 0
      {
        VersionsCompareAsSegments(a, b);
        VersionsCompareAsSegments(b, c);
        VersionsCompareAsSegments(a, c);
        ThroughNumbers(SegmentsOf(a, 0), SegmentsOf(b, 0), SegmentsOf(c, 0));
      }
    }
  }
}
