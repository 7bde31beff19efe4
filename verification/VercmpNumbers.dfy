// Purely numeric versions are ordered as lists of numbers.
module VercmpNumbers {
  import opened Vercmp
  import opened VercmpOrder

  // All letters and digits are digits, and the version is empty or ends in one.
  predicate Numeric(v: string) {
    && (forall k :: 0 <= k < |v| && IsAlnum(v[k]) ==> IsDigit(v[k]))
    && (v == "" || IsDigit(v[|v| - 1]))
  }

  function Pow10(n: nat): (p: nat)
    ensures p > 0
  {
    if n == 0 then 1 else 10 * Pow10(n - 1)
  }

  function DigitValue(c: char): nat
    requires IsDigit(c)
  {
    c as int - '0' as int
  }

  predicate Digits(v: string, p: nat, e: nat) {
    p <= e <= |v| && forall k :: p <= k < e ==> IsDigit(v[k])
  }

  // The number that the digits v[p..e] denote.
  function Value(v: string, p: nat, e: nat): nat
    requires Digits(v, p, e)
    decreases e - p
  {
    if p == e then 0 else DigitValue(v[p]) * Pow10(e - p - 1) + Value(v, p + 1, e)
  }

  // It is the decimal number: each further digit counts one, those before it ten times as much.
  lemma {:induction false} ValueIsDecimal(v: string, p: nat, e: nat)
    requires Digits(v, p, e) && p < e
    ensures Value(v, p, e) == 10 * Value(v, p, e - 1) + (v[e - 1] as int - 48)
    ensures Value(v, p, p) == 0
    decreases e - p
  {
    if p < e - 1 {
      ValueIsDecimal(v, p + 1, e);
      TenTimes(DigitValue(v[p]), e - p - 1);
      hide Pow10;
    } else {
      assert Pow10(0) == 1;
    }
  }

  lemma TenTimes(d: nat, n: nat)
    requires n > 0
    ensures d * Pow10(n) == 10 * (d * Pow10(n - 1))
  {
  }

  // The numbers of a version, whatever separates them.
  function Numbers(v: string, i: nat): seq<nat>
    requires Numeric(v) && i <= |v|
    decreases |v| - i
  {
    var p := SkipFrom(v, i);
    if p == |v| then [] else [Value(v, p, DigitEnd(v, p))] + Numbers(v, DigitEnd(v, p))
  }

  // Lexicographic order; a proper prefix is smaller.
  function CompareLists(xs: seq<nat>, ys: seq<nat>): int {
    if xs == [] || ys == [] then (if xs != [] then 1 else if ys != [] then -1 else 0)
    else if xs[0] != ys[0] then (if xs[0] < ys[0] then -1 else 1)
    else CompareLists(xs[1..], ys[1..])
  }

  lemma {:induction false} LeadingZeros(v: string, p: nat, e: nat)
    requires Digits(v, p, e)
    ensures Value(v, ZeroEnd(v, p, e), e) == Value(v, p, e)
    decreases e - p
  {
    if p < e && v[p] == '0' {
      LeadingZeros(v, p + 1, e);
      assert 0 * Pow10(e - p - 1) == 0;
    }
  }

  lemma DigitTimesPower(d: nat, n: nat)
    requires d <= 9
    ensures d * Pow10(n) + Pow10(n) <= Pow10(n + 1)
    ensures d > 0 ==> d * Pow10(n) >= Pow10(n)
  {
    var p := Pow10(n);
    assert (9 - d) * p >= 0;
    assert d > 0 ==> (d - 1) * p >= 0;
  }

  lemma {:induction false} ValueBounds(v: string, p: nat, e: nat)
    requires Digits(v, p, e)
    ensures Value(v, p, e) < Pow10(e - p)
    ensures p < e && v[p] != '0' ==> Value(v, p, e) >= Pow10(e - p - 1)
    decreases e - p
  {
    if p < e {
      ValueBounds(v, p + 1, e);
      DigitTimesPower(DigitValue(v[p]), e - p - 1);
    }
  }

  lemma {:induction false} PowerGrows(m: nat, n: nat)
    requires m <= n
    ensures Pow10(m) <= Pow10(n)
  {
    if m < n {
      PowerGrows(m, n - 1);
    }
  }

  // Without leading zeros the longer number is the larger one.
  lemma LongerIsLarger(a: string, p: nat, e: nat, b: string, q: nat, f: nat)
    requires Digits(a, p, e) && Digits(b, q, f)
    requires e - p > f - q && a[p] != '0'
    ensures Value(a, p, e) > Value(b, q, f)
  {
    ValueBounds(a, p, e);
    ValueBounds(b, q, f);
    PowerGrows(f - q, e - p - 1);
  }

  lemma DigitsDecide(c: nat, d: nat, x: nat, y: nat, p: nat)
    requires c < d && x < p
    ensures c * p + x < d * p + y
  {
    var m := d - c - 1;
    assert m * p >= 0;
    assert (c + m + 1) * p == c * p + m * p + p;
  }

  // For equally long numbers the first different digit decides.
  lemma {:induction false} FirstDifference(a: string, p: nat, e: nat, b: string, q: nat, f: nat)
    requires Digits(a, p, e) && Digits(b, q, f) && e - p == f - q
    ensures var k := Common(a, p, e, b, q, f);
      if p + k < e then Sign(Value(a, p, e) - Value(b, q, f)) == Sign(a[p + k] as int - b[q + k] as int)
      else Value(a, p, e) == Value(b, q, f)
    decreases e - p
  {
    hide Value;
    if p < e {
      ValueStep(a, p, e);
      ValueStep(b, q, f);
      if a[p] == b[q] {
        FirstDifference(a, p + 1, e, b, q + 1, f);
      } else {
        DifferentDigits(a, p, e, b, q, f);
      }
    } else {
      NoDigits(a, p);
      NoDigits(b, q);
    }
  }

  lemma ValueStep(v: string, p: nat, e: nat)
    requires Digits(v, p, e) && p < e
    ensures Value(v, p, e) == DigitValue(v[p]) * Pow10(e - p - 1) + Value(v, p + 1, e)
  {
    hide Pow10;
  }

  lemma NoDigits(v: string, p: nat)
    requires p <= |v|
    ensures Value(v, p, p) == 0
  {
  }

  lemma DifferentDigits(a: string, p: nat, e: nat, b: string, q: nat, f: nat)
    requires Digits(a, p, e) && Digits(b, q, f) && e - p == f - q && p < e && a[p] != b[q]
    ensures Sign(Value(a, p, e) - Value(b, q, f)) == Sign(a[p] as int - b[q] as int)
  {
    hide Pow10, Value;
    ValueStep(a, p, e);
    ValueStep(b, q, f);
    ValueBounds(a, p + 1, e);
    ValueBounds(b, q + 1, f);
    var c, d, n := DigitValue(a[p]), DigitValue(b[q]), Pow10(e - p - 1);
    if c < d {
      DigitsDecide(c, d, Value(a, p + 1, e), Value(b, q + 1, f), n);
    } else {
      DigitsDecide(d, c, Value(b, q + 1, f), Value(a, p + 1, e), n);
    }
  }

  // One round compares one number on each side.
  lemma NumberRound(a: string, i: nat, b: string, j: nat)
    requires i < |a| && j < |b| && IsDigit(At(a, SkipFrom(a, i))) && IsDigit(At(b, SkipFrom(b, j)))
    ensures var p, q := SkipFrom(a, i), SkipFrom(b, j);
      var e, f := DigitEnd(a, p), DigitEnd(b, q);
      var x, y := Value(a, p, e), Value(b, q, f);
      if x == y then Round(a, i, b, j) == GoOn(e, f)
      else Round(a, i, b, j).Decided? && Sign(Round(a, i, b, j).r) == Sign(x - y)
  {
    hide SkipFrom, DigitEnd, AlphaEnd, Value, Common;
    var p, q := SkipFrom(a, i), SkipFrom(b, j);
    var e, f := DigitEnd(a, p), DigitEnd(b, q);
    LeadingZeros(a, p, e);
    LeadingZeros(b, q, f);
    var z, w := ZeroEnd(a, p, e), ZeroEnd(b, q, f);
    if e - z > f - w {
      LongerIsLarger(a, z, e, b, w, f);
    } else if f - w > e - z {
      LongerIsLarger(b, w, f, a, z, e);
    } else {
      FirstDifference(a, z, e, b, w, f);
    }
  }

  lemma {:induction false} NumericCompare(a: string, i: nat, b: string, j: nat)
    requires Numeric(a) && Numeric(b) && i <= |a| && j <= |b|
    ensures Sign(Compare(a, i, b, j)) == CompareLists(Numbers(a, i), Numbers(b, j))
    decreases |a| - i + |b| - j
  {
    hide Round, Value, SkipFrom, DigitEnd;
    if i < |a| && j < |b| {
      assert SkipFrom(a, i) < |a| && SkipFrom(b, j) < |b|;
      NumberRound(a, i, b, j);
      var v := Round(a, i, b, j);
      if v.GoOn? {
        NumericCompare(a, v.i, b, v.j);
      }
    } else if i < |a| {
      assert IsAlnum(a[|a| - 1]) && SkipFrom(a, i) < |a|;
    } else if j < |b| {
      assert IsAlnum(b[|b| - 1]) && SkipFrom(b, j) < |b|;
    }
  }

  lemma {:induction false} ListsCompareEqual(xs: seq<nat>)
    ensures CompareLists(xs, xs) == 0
  {
    if xs != [] {
      ListsCompareEqual(xs[1..]);
    }
  }

  // The promised meaning on numeric versions.
  lemma NumericVersionsCompareAsLists(a: string, b: string)
    requires Numeric(a) && Numeric(b)
    ensures Sign(Compared(a, b)) == CompareLists(Numbers(a, 0), Numbers(b, 0))
  {
    if a == b {
      ListsCompareEqual(Numbers(a, 0));
    } else {
      NumericCompare(a, 0, b, 0);
    }
  }

  lemma {:induction false} ListOrder(xs: seq<nat>, ys: seq<nat>, zs: seq<nat>)
    ensures CompareLists(xs, ys) == -CompareLists(ys, xs)
    ensures CompareLists(xs, ys) == 0 ==> xs == ys
    ensures CompareLists(xs, ys) <= 0 && CompareLists(ys, zs) <= 0 ==> CompareLists(xs, zs) <= 0
    decreases |xs|
  {
    if xs != [] && ys != [] {
      ListOrder(xs[1..], ys[1..], if zs == [] then [] else zs[1..]);
      assert xs == [xs[0]] + xs[1..] && ys == [ys[0]] + ys[1..];
    }
  }

  // On numeric versions the comparison is a total preorder; versions tie exactly when their numbers agree.
  lemma NumericVersionsAreOrdered(a: string, b: string, c: string)
    requires Numeric(a) && Numeric(b) && Numeric(c)
    ensures Compared(a, b) <= 0 || Compared(b, a) <= 0
    ensures Compared(a, b) <= 0 && Compared(b, c) <= 0 ==> Compared(a, c) <= 0
    ensures Compared(a, b) == 0 <==> Numbers(a, 0) == Numbers(b, 0)
  {
    hide Compared, Numbers, CompareLists, Numeric;
    NumericVersionsCompareAsLists(a, b);
    NumericVersionsCompareAsLists(b, a);
    NumericVersionsCompareAsLists(b, c);
    NumericVersionsCompareAsLists(a, c);
    ListOrder(Numbers(a, 0), Numbers(b, 0), Numbers(c, 0));
    ListsCompareEqual(Numbers(a, 0));
  }
}
