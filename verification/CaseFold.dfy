// Case-insensitive comparison of C strings (src/pextlib1.0/strcasecmp.c).
//
// A C string is the sequence of its characters before the terminating NUL; every
// character is an ASCII code between 1 and 127.
module CaseFold {
  import opened CTypes

  predicate IsUpper(c: char) { 'A' <= c <= 'Z' }

  // tolower(3) in the C locale.
  function ToLower(c: char): char {
    if IsUpper(c) then (c as int + 32) as char else c
  }

  // The 26 capital letters of ASCII fold to the small ones, and every other character is itself.
  lemma LettersFold(c: char)
    ensures ToLower(c) as int == if 65 <= c as int <= 90 then c as int + 32 else c as int
  {
  }

  // The bytes a C string may hold: ASCII, and no NUL.
  predicate IsText(s: string) {
    forall i :: 0 <= i < |s| ==> 0 < s[i] as int < 128
  }

  function Fold(s: string): (r: string)
    ensures |r| == |s|
    ensures forall i :: 0 <= i < |s| ==> r[i] == ToLower(s[i])
  {
    seq(|s|, i requires 0 <= i < |s| => ToLower(s[i]))
  }

  // The order strcmp(3) gives on strings that have no NUL inside: a proper prefix comes first.
  predicate Less(a: string, b: string) {
    b != [] && (a == [] || a[0] < b[0] || (a[0] == b[0] && Less(a[1..], b[1..])))
  }

  lemma {:induction false} LessIrreflexive(a: string)
    ensures !Less(a, a)
  {
    if a != [] { LessIrreflexive(a[1..]); }
  }

  lemma {:induction false} LessTransitive(a: string, b: string, c: string)
    requires Less(a, b) && Less(b, c)
    ensures Less(a, c)
  {
    if a != [] && a[0] == b[0] == c[0] { LessTransitive(a[1..], b[1..], c[1..]); }
  }

  lemma {:induction false} LessTotal(a: string, b: string)
    ensures Less(a, b) || a == b || Less(b, a)
  {
    if a != [] && b != [] && a[0] == b[0] {
      LessTotal(a[1..], b[1..]);
      assert a == [a[0]] + a[1..] && b == [b[0]] + b[1..];
    }
  }

  lemma LessAsymmetric(a: string, b: string)
    requires Less(a, b)
    ensures !Less(b, a)
  {
    if Less(b, a) {
      LessTransitive(a, b, a);
      LessIrreflexive(a);
    }
  }

  // What a strcmp-like result must say about the two strings.
  predicate SignMatches(r: int, a: string, b: string) {
    (r < 0 <==> Less(a, b)) && (r == 0 <==> a == b) && (r > 0 <==> Less(b, a))
  }

  // Two strings that agree on their first i characters compare as their tails do.
  lemma {:induction false} LessAfterCommonPrefix(a: string, b: string, i: nat)
    requires i <= |a| && i <= |b| && a[..i] == b[..i]
    ensures Less(a, b) == Less(a[i..], b[i..])
    decreases i
  {
    if i != 0 {
      assert a[0] == a[..i][0] == b[..i][0] == b[0];
      assert a[1..][..i-1] == a[..i][1..] == b[..i][1..] == b[1..][..i-1];
      LessAfterCommonPrefix(a[1..], b[1..], i - 1);
      assert a[1..][i-1..] == a[i..] && b[1..][i-1..] == b[i..];
    }
  }

  lemma FirstDifferenceDecides(a: string, b: string, i: nat, r: int)
    requires i <= |a| && i <= |b| && a[..i] == b[..i]
    requires r == CharAt(a, i) as int - CharAt(b, i) as int
    requires IsText(a) && IsText(b)
    requires i == |a| || r != 0
    ensures SignMatches(r, a, b)
  {
    LessAfterCommonPrefix(a, b, i);
    LessAfterCommonPrefix(b, a, i);
    assert a == a[..i] + a[i..] && b == b[..i] + b[i..];
    LessTotal(a, b);
    if Less(a, b) { LessAsymmetric(a, b); }
    if Less(b, a) { LessAsymmetric(b, a); }
  }

  // What reading s[i] yields when the array holds s and its terminator.
  function CharAt(s: string, i: nat): char
    requires i <= |s|
  {
    if i < |s| then s[i] else NUL
  }

  // xstrcasecmp: strcmp semantics on the folded strings.
  method StrCaseCmp(left: string, right: string) returns (result: int)
    requires IsText(left) && IsText(right)
    ensures SignMatches(result, Fold(left), Fold(right))
  {
    var i := 0;
    var leftChar, rightChar := ToLower(CharAt(left, 0)), ToLower(CharAt(right, 0));
    result := leftChar as int - rightChar as int;
    i := 1;
    while leftChar != NUL && result == 0
      invariant 1 <= i <= |left| + 1 && i <= |right| + 1
      invariant Fold(left)[..i-1] == Fold(right)[..i-1]
      invariant leftChar == CharAt(Fold(left), i - 1) && rightChar == CharAt(Fold(right), i - 1)
      invariant result == leftChar as int - rightChar as int
      decreases |left| + 1 - i
    {
      leftChar, rightChar := ToLower(CharAt(left, i)), ToLower(CharAt(right, i));
      result := leftChar as int - rightChar as int;
      i := i + 1;
      assert Fold(left)[..i-1] == Fold(left)[..i-2] + [Fold(left)[i-2]];
      assert Fold(right)[..i-1] == Fold(right)[..i-2] + [Fold(right)[i-2]];
    }
    FirstDifferenceDecides(Fold(left), Fold(right), i - 1, result);
  }

  function Take(s: string, n: nat): string {
    if n <= |s| then s[..n] else s
  }

  // xstrncasecmp: the same on the first max characters; max is positive, since zero would wrap.
  method StrNCaseCmp(left: string, right: string, max: nat) returns (result: int)
    requires IsText(left) && IsText(right) && max > 0
    ensures SignMatches(result, Fold(Take(left, max)), Fold(Take(right, max)))
  {
    var i, n := 1, max - 1;
    var leftChar, rightChar := ToLower(CharAt(left, 0)), ToLower(CharAt(right, 0));
    result := leftChar as int - rightChar as int;
    while n != 0 && leftChar != NUL && result == 0
      invariant 1 <= i <= |left| + 1 && i <= |right| + 1 && n == max - i
      invariant Fold(left)[..i-1] == Fold(right)[..i-1]
      invariant leftChar == CharAt(Fold(left), i - 1) && rightChar == CharAt(Fold(right), i - 1)
      invariant result == leftChar as int - rightChar as int
      decreases n
    {
      leftChar, rightChar := ToLower(CharAt(left, i)), ToLower(CharAt(right, i));
      result := leftChar as int - rightChar as int;
      i, n := i + 1, n - 1;
      assert Fold(left)[..i-1] == Fold(left)[..i-2] + [Fold(left)[i-2]];
      assert Fold(right)[..i-1] == Fold(right)[..i-2] + [Fold(right)[i-2]];
    }
    FoldOfTake(left, max);
    FoldOfTake(right, max);
    TakenDecides(Fold(left), Fold(right), max, i - 1, result);
  }

  lemma FoldOfTake(s: string, n: nat)
    ensures Fold(Take(s, n)) == Take(Fold(s), n)
  {
  }

  // The first max characters of two strings, where they agree on i and the next one decides or is the last.
  lemma TakenDecides(s: string, t: string, max: nat, i: nat, result: int)
    requires IsText(s) && IsText(t) && i < max && i <= |s| && i <= |t| && s[..i] == t[..i]
    requires result == CharAt(s, i) as int - CharAt(t, i) as int
    requires result != 0 || CharAt(s, i) == NUL || i + 1 == max
    ensures SignMatches(result, Take(s, max), Take(t, max))
  {
    hide SignMatches;
    var a, b := Take(s, max), Take(t, max);
    assert a[..i] == s[..i] && b[..i] == t[..i];
    if result == 0 && CharAt(s, i) != NUL {
      assert a == a[..i] + [s[i]] && b == b[..i] + [t[i]];
      SameMatches(a);
    } else {
      FirstDifferenceDecides(a, b, i, result);
    }
  }

  lemma SameMatches(a: string)
    ensures SignMatches(0, a, a)
  {
    LessIrreflexive(a);
  }
}
