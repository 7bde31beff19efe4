// RPM-style version comparison: a pointer walk over two C strings (no NUL inside), and its meaning.
module Vercmp {
  predicate IsDigit(c: char) {
    '0' <= c <= '9'
  }

  predicate IsAlpha(c: char) {
    'a' <= c <= 'z' || 'A' <= c <= 'Z'
  }

  predicate IsAlnum(c: char) {
    IsDigit(c) || IsAlpha(c)
  }

  // The 52 letters and the ten digits of ASCII.
  lemma ClassesExactly(c: char)
    ensures IsDigit(c) <==> 48 <= c as int <= 57
    ensures IsAlpha(c) <==> 65 <= c as int <= 90 || 97 <= c as int <= 122
    ensures IsAlnum(c) <==> IsDigit(c) || IsAlpha(c)
  {
  }

  // The character a pointer sees; NUL at the end.
  function At(s: string, i: nat): char {
    if i < |s| then s[i] else '\0'
  }

  function SkipFrom(s: string, i: nat): (p: nat)
    requires i <= |s|
    ensures i <= p <= |s|
    ensures forall k :: i <= k < p ==> !IsAlnum(s[k])
    ensures p < |s| ==> IsAlnum(s[p])
    decreases |s| - i
  {
    if i < |s| && !IsAlnum(s[i]) then SkipFrom(s, i + 1) else i
  }

  function AlphaEnd(s: string, i: nat): (e: nat)
    requires i <= |s|
    ensures i <= e <= |s|
    ensures forall k :: i <= k < e ==> IsAlpha(s[k])
    ensures e < |s| ==> !IsAlpha(s[e])
    decreases |s| - i
  {
    if i < |s| && IsAlpha(s[i]) then AlphaEnd(s, i + 1) else i
  }

  function DigitEnd(s: string, i: nat): (e: nat)
    requires i <= |s|
    ensures i <= e <= |s|
    ensures forall k :: i <= k < e ==> IsDigit(s[k])
    ensures e < |s| ==> !IsDigit(s[e])
    decreases |s| - i
  {
    if i < |s| && IsDigit(s[i]) then DigitEnd(s, i + 1) else i
  }

  // Behind the leading zeros of s[i..e].
  function ZeroEnd(s: string, i: nat, e: nat): (z: nat)
    requires i <= e <= |s|
    ensures i <= z <= e
    ensures forall k :: i <= k < z ==> s[k] == '0'
    ensures z < e ==> s[z] != '0'
    decreases e - i
  {
    if i < e && s[i] == '0' then ZeroEnd(s, i + 1, e) else i
  }

  // How many characters s[i..e] and t[j..f] have in common at their start.
  function Common(s: string, i: nat, e: nat, t: string, j: nat, f: nat): (k: nat)
    requires i <= e <= |s| && j <= f <= |t|
    ensures i + k <= e && j + k <= f
    ensures i + k < e && j + k < f ==> s[i + k] != t[j + k]
    decreases e - i
  {
    if i < e && j < f && s[i] == t[j] then Common(s, i + 1, e, t, j + 1, f) + 1 else 0
  }

  // One round of the loop decides, or leaves both pointers behind the segments it compared.
  datatype Verdict = Decided(r: int) | GoOn(i: nat, j: nat)

  function Round(a: string, i: nat, b: string, j: nat): (v: Verdict)
    requires i < |a| && j < |b|
    ensures v.GoOn? ==> i <= v.i <= |a| && j <= v.j <= |b| && (i < v.i || j < v.j)
  {
    var p, q := SkipFrom(a, i), SkipFrom(b, j);
    var x, y := At(a, p), At(b, q);
    if !IsDigit(y) && IsDigit(x) then Decided(1)
    else if (IsDigit(x) && IsAlpha(y)) || (IsAlpha(x) && IsDigit(y)) then Decided(-1)
    else if IsAlpha(x) then Segments(a, p, AlphaEnd(a, p), b, q, AlphaEnd(b, q))
    else
      var e, f := DigitEnd(a, p), DigitEnd(b, q);
      var z, w := ZeroEnd(a, p, e), ZeroEnd(b, q, f);
      if e - z > f - w then Decided(1)
      else if f - w > e - z then Decided(-1)
      else Segments(a, z, e, b, w, f)
  }

  // The first difference inside both segments decides.
  function Segments(a: string, p: nat, e: nat, b: string, q: nat, f: nat): Verdict
    requires p <= e <= |a| && q <= f <= |b|
  {
    var k := Common(a, p, e, b, q, f);
    if p + k < e && q + k < f then Decided(a[p + k] as int - b[q + k] as int) else GoOn(e, f)
  }

  // The comparison from two positions on.
  function Compare(a: string, i: nat, b: string, j: nat): int
    requires i <= |a| && j <= |b|
    decreases |a| - i + |b| - j
  {
    if i < |a| && j < |b| then
      match Round(a, i, b, j)
      case Decided(r) => r
      case GoOn(i', j') => Compare(a, i', b, j')
    else if i < |a| then 1
    else if j < |b| then -1
    else 0
  }

  function Compared(a: string, b: string): int {
    if a == b then 0 else Compare(a, 0, b, 0)
  }

  method Skip(s: string, i: nat) returns (p: nat)
    requires i <= |s|
    ensures p == SkipFrom(s, i)
  {
    p := i;
    while p < |s| && !IsAlnum(s[p])
      invariant i <= p <= |s| && SkipFrom(s, p) == SkipFrom(s, i)
    {
      p := p + 1;
    }
  }

  method AlphaSpan(s: string, i: nat) returns (e: nat)
    requires i <= |s|
    ensures e == AlphaEnd(s, i)
  {
    e := i;
    while e < |s| && IsAlpha(s[e])
      invariant i <= e <= |s| && AlphaEnd(s, e) == AlphaEnd(s, i)
    {
      e := e + 1;
    }
  }

  // The loops over one number: its end, and its digits counted and then stripped of leading zeros.
  method NumberSpan(s: string, i: nat) returns (p: nat, e: nat, count: int)
    requires i <= |s|
    ensures e == DigitEnd(s, i) && p == ZeroEnd(s, i, e) && count == e - p
  {
    e, count := i, 0;
    while e < |s| && IsDigit(s[e])
      invariant i <= e <= |s| && DigitEnd(s, e) == DigitEnd(s, i) && count == e - i
    {
      count := count + 1;
      e := e + 1;
    }
    p := i;
    while p != e && s[p] == '0'
      invariant i <= p <= e && ZeroEnd(s, p, e) == ZeroEnd(s, i, e) && count == e - p
      decreases e - p
    {
      p := p + 1;
      count := count - 1;
    }
  }

  method SkipCommon(s: string, i: nat, e: nat, t: string, j: nat, f: nat) returns (p: nat, q: nat)
    requires i <= e <= |s| && j <= f <= |t|
    ensures p == i + Common(s, i, e, t, j, f) && q == j + Common(s, i, e, t, j, f)
  {
    p, q := i, j;
    while p != e && q != f && s[p] == t[q]
      invariant i <= p <= e && j <= q <= f && p - i == q - j
      invariant Common(s, i, e, t, j, f) == Common(s, p, e, t, q, f) + (p - i)
      decreases e - p
    {
      p := p + 1;
      q := q + 1;
    }
  }

  method CompareRound(a: string, i: nat, b: string, j: nat) returns (v: Verdict)
    requires i < |a| && j < |b|
    ensures v == Round(a, i, b, j)
  {
    hide SkipFrom, AlphaEnd, DigitEnd, ZeroEnd, Segments;
    var p := Skip(a, i);
    var q := Skip(b, j);
    var e, f;
    if !IsDigit(At(b, q)) {
      if IsDigit(At(a, p)) {
        return Decided(1);
      }
    }
    if (IsDigit(At(a, p)) && IsAlpha(At(b, q))) || (IsAlpha(At(a, p)) && IsDigit(At(b, q))) {
      return Decided(-1);
    }
    if IsAlpha(At(a, p)) {
      e := AlphaSpan(a, p);
      f := AlphaSpan(b, q);
    } else {
      var countA, countB;
      p, e, countA := NumberSpan(a, p);
      q, f, countB := NumberSpan(b, q);
      if countA > countB {
        return Decided(1);
      }
      if countB > countA {
        return Decided(-1);
      }
    }
    v := CompareSegments(a, p, e, b, q, f);
  }

  // The end of the loop body: a difference inside both segments decides, or both pointers move behind them.
  method CompareSegments(a: string, i: nat, e: nat, b: string, j: nat, f: nat) returns (v: Verdict)
    requires i <= e <= |a| && j <= f <= |b|
    ensures v == Segments(a, i, e, b, j, f)
  {
    var p, q := SkipCommon(a, i, e, b, j, f);
    if p != e && q != f {
      return Decided(a[p] as int - b[q] as int);
    }
    v := GoOn(e, f);
  }

  // Positive when a is newer, negative when b is newer. Terminates on every input.
  method VersionCompare(a: string, b: string) returns (r: int)
    ensures r == Compared(a, b)
  {
    if a == b {
      return 0;
    }
    var i: nat, j: nat := 0, 0;
    while i < |a| && j < |b|
      invariant i <= |a| && j <= |b| && Compare(a, i, b, j) == Compare(a, 0, b, 0)
      decreases |a| - i + |b| - j
    {
      var v := CompareRound(a, i, b, j);
      match v {
        case Decided(d) =>
          return d;
        case GoOn(e, f) =>
          i, j := e, f;
      }
    }
    if i == |a| && j == |b| {
      return 0;
    }
    if i < |a| {
      return 1;
    } else {
      return -1;
    }
  }
}
