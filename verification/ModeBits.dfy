// What symbolic and octal modes mean bit by bit.
module ModeBits {
  import opened CTypes
  import opened ModeCommands
  import opened ModeCompiler
  import opened ModeMeaning
  import opened ModeOctal

  // A permission letter of a class, or the set-id letter of user or group.
  predicate IsBit(class_: char, perm: char) {
    (class_ in "ugo" && perm in "rwx") || (class_ in "ug" && perm == 's')
  }

  // The bits of a mode as chmod(2) numbers them: 04000, 02000, 0400, 0200, 0100, 040, ...
  function PermBit(class_: char, perm: char): Mode
    requires IsBit(class_, perm)
  {
    match (class_, perm)
    case ('u', 's') => 0x800
    case ('g', 's') => 0x400
    case ('u', 'r') => 0x100
    case ('u', 'w') => 0x80
    case ('u', _) => 0x40
    case ('g', 'r') => 0x20
    case ('g', 'w') => 0x10
    case ('g', _) => 0x8
    case (_, 'r') => 0x4
    case (_, 'w') => 0x2
    case (_, _) => 0x1
  }

  const STICKY: Mode := 0x200

  predicate On(m: Mode, bit: Mode) { m & bit != 0 }

  predicate IsSingle(bit: Mode) {
    bit == 0x800 || bit == 0x400 || bit == 0x200 || bit == 0x100 || bit == 0x80 || bit == 0x40 || bit == 0x20 ||
    bit == 0x10 || bit == 0x8 || bit == 0x4 || bit == 0x2 || bit == 0x1
  }

  lemma PermBitIsSingle(class_: char, perm: char)
    requires IsBit(class_, perm)
    ensures IsSingle(PermBit(class_, perm))
  {
  }

  lemma OnPlus(a: Mode, b: Mode, bit: Mode)
    ensures On(Plus(a, b), bit) <==> On(a, bit) || On(b, bit)
  {
    assert (a | b) & bit == (a & bit) | (b & bit);
  }

  lemma OnBoth(a: Mode, b: Mode, bit: Mode)
    requires IsSingle(bit)
    ensures On(Both(a, b), bit) <==> On(a, bit) && On(b, bit)
  {
  }

  lemma OnMinus(a: Mode, b: Mode, bit: Mode)
    requires IsSingle(bit)
    ensures On(Minus(a, b), bit) <==> On(a, bit) && !On(b, bit)
  {
    OnBoth(a, !b, bit);
    OnComplement(b, bit);
    assert Minus(a, b) == Both(a, !b);
    hide Minus, Both, On, IsSingle;
  }

  lemma OnComplement(b: Mode, bit: Mode)
    requires IsSingle(bit)
    ensures On(!b, bit) <==> !On(b, bit)
  {
  }

  // ----- letters

  lemma NamedBit(who: string, class_: char, perm: char)
    requires IsBit(class_, perm)
    ensures On(NamedBits(who), PermBit(class_, perm)) <==> Names(who, class_)
    ensures !On(NamedBits(who), STICKY)
  {
    hide Names;
  }

  lemma AskedBit(letters: string, class_: char, perm: char)
    requires IsBit(class_, perm)
    ensures On(AskedBits(letters), PermBit(class_, perm)) <==> perm in letters
    ensures On(AskedBits(letters), STICKY) <==> 't' in letters
  {
  }

  lemma ConstantBits(class_: char, perm: char)
    requires IsBit(class_, perm)
    ensures On(STANDARD_BITS, PermBit(class_, perm)) && !On(STANDARD_BITS, STICKY)
    ensures On(S_IX, PermBit(class_, perm)) <==> perm == 'x'
    ensures !On(S_IX, STICKY) && On(S_ISTXT, STICKY) && !On(S_ISTXT, PermBit(class_, perm))
  {
  }

  lemma NamedWithStickyBit(letters: string, who: string, class_: char, perm: char)
    requires IsBit(class_, perm)
    ensures On(NamedWithSticky(letters, who), PermBit(class_, perm)) <==> Names(who, class_)
    ensures On(NamedWithSticky(letters, who), STICKY) <==> NamesSticky(letters, who)
  {
    hide NamedBits, PermBit, On, Plus;
    NamedBit(who, class_, perm);
    ConstantBits(class_, perm);
    OnPlus(NamedBits(who), S_ISTXT, PermBit(class_, perm));
    OnPlus(NamedBits(who), S_ISTXT, STICKY);
  }

  // Whether an action may change a bit: its class is named or, with no class named, the mask has it.
  predicate MayChange(letters: string, who: string, mask: Mode, class_: char, perm: char)
    requires IsBit(class_, perm)
  {
    if who == [] && 't' !in letters then On(mask, PermBit(class_, perm)) else Names(who, class_)
  }

  // Search permission that X asks for: of a directory, or of a file that someone may execute.
  predicate Searches(letters: string, omode: Mode) {
    'X' in letters && omode & 0x4049 != 0
  }

  // What an operator makes of a mode.
  function Applied(op: char, cleared: Mode, bits: Mode, m: Mode): Mode {
    if op == '+' then Plus(m, bits) else if op == '-' then Minus(m, bits) else Plus(Minus(m, cleared), bits)
  }

  lemma AppliedBit(op: char, cleared: Mode, bits: Mode, m: Mode, bit: Mode)
    requires IsSingle(bit)
    ensures On(Applied(op, cleared, bits, m), bit) <==>
      if op == '+' then On(m, bit) || On(bits, bit)
      else if op == '-' then On(m, bit) && !On(bits, bit)
      else (On(m, bit) && !On(cleared, bit)) || On(bits, bit)
  {
    hide On, Plus, Minus, IsSingle;
    OnPlus(m, bits, bit);
    OnMinus(m, bits, bit);
    OnMinus(m, cleared, bit);
    OnPlus(Minus(m, cleared), bits, bit);
  }

  // The bits that an action on letters may change, and those that its '=' clears.
  function Allowed(letters: string, who: string, mask: Mode): Mode {
    if who == [] && 't' !in letters then mask else NamedWithSticky(letters, who)
  }

  function Cleared(letters: string, who: string): Mode {
    if who == [] && 't' !in letters then STANDARD_BITS else NamedWithSticky(letters, who)
  }

  lemma ActionApplies(op: char, letters: string, who: string, mask: Mode, omode: Mode, m: Mode)
    requires IsOp(op)
    ensures ActionMeaning(Action(op, Perms(letters)), who, mask, omode, m) ==
      var m' := Applied(op, Cleared(letters, who), Both(Allowed(letters, who, mask), AskedBits(letters)), m);
      if Searches(letters, omode) then Plus(m', Both(Allowed(letters, who, mask), S_IX)) else m'
  {
    hide Plus, Minus, Both, AskedBits, NamedWithSticky, Searchable;
    SearchableExactly(omode);
  }

  lemma SearchableExactly(omode: Mode)
    ensures Searchable(omode) <==> omode & 0x4049 != 0
  {
  }

  lemma ActionBit(op: char, letters: string, who: string, mask: Mode, omode: Mode, m: Mode, bit: Mode)
    requires IsOp(op) && IsSingle(bit)
    ensures var allowed := On(Allowed(letters, who, mask), bit);
      var bits := allowed && On(AskedBits(letters), bit);
      On(ActionMeaning(Action(op, Perms(letters)), who, mask, omode, m), bit) <==>
        || (if op == '+' then On(m, bit) || bits
            else if op == '-' then On(m, bit) && !bits
            else (On(m, bit) && !On(Cleared(letters, who), bit)) || bits)
        || (Searches(letters, omode) && allowed && On(S_IX, bit))
  {
    hide ActionMeaning, Applied, Allowed, Cleared, AskedBits, Searches, On, Plus, Both, IsSingle;
    var allowed := Allowed(letters, who, mask);
    var bits := Both(allowed, AskedBits(letters));
    ActionApplies(op, letters, who, mask, omode, m);
    AppliedBit(op, Cleared(letters, who), bits, m, bit);
    OnBoth(allowed, AskedBits(letters), bit);
    OnBoth(allowed, S_IX, bit);
    OnPlus(Applied(op, Cleared(letters, who), bits, m), Both(allowed, S_IX), bit);
  }

  // A bit after an action on letters.
  lemma LettersBit(op: char, letters: string, who: string, mask: Mode, omode: Mode, m: Mode, class_: char, perm: char)
    requires IsBit(class_, perm) && IsOp(op)
    ensures var bit, may := PermBit(class_, perm), MayChange(letters, who, mask, class_, perm);
      On(ActionMeaning(Action(op, Perms(letters)), who, mask, omode, m), bit) <==>
        || (if op == '+' then On(m, bit) || (may && perm in letters)
            else if op == '-' then On(m, bit) && !(may && perm in letters)
            else if may || (who == [] && 't' !in letters) then may && perm in letters
            else On(m, bit))
        || (may && perm == 'x' && Searches(letters, omode))
  {
    hide ActionMeaning, AskedBits, NamedWithSticky, Searches, On, IsSingle, PermBit, IsBit, Names;
    PermBitIsSingle(class_, perm);
    NamedWithStickyBit(letters, who, class_, perm);
    AskedBit(letters, class_, perm);
    ConstantBits(class_, perm);
    ActionBit(op, letters, who, mask, omode, m, PermBit(class_, perm));
  }

  // The sticky bit after an action on letters.
  lemma StickyBit(op: char, letters: string, who: string, mask: Mode, omode: Mode, m: Mode)
    requires IsOp(op)
    ensures On(ActionMeaning(Action(op, Perms(letters)), who, mask, omode, m), STICKY) <==>
      if NamesSticky(letters, who) then op != '-' else On(m, STICKY)
  {
    hide ActionMeaning, AskedBits, NamedWithSticky, Searches, On, PermBit, Names;
    NamedWithStickyBit(letters, who, 'u', 'x');
    AskedBit(letters, 'u', 'x');
    ConstantBits('u', 'x');
    ActionBit(op, letters, who, mask, omode, m, STICKY);
  }

  lemma TwelveBits(letters: string, who: string, allowed: Mode)
    ensures Both(allowed, AskedBits(letters)) & 0xF000 == 0 && Both(allowed, S_IX) & 0xF000 == 0
    ensures Cleared(letters, who) & 0xF000 == 0
  {
    assert AskedBits(letters) & 0xF000 == 0 && S_IX & 0xF000 == 0;
    assert (allowed & AskedBits(letters)) & 0xF000 == allowed & (AskedBits(letters) & 0xF000);
    assert (allowed & S_IX) & 0xF000 == allowed & (S_IX & 0xF000);
  }

  lemma FileTypeUnder(m: Mode, b: Mode)
    requires b & 0xF000 == 0
    ensures Plus(m, b) & 0xF000 == m & 0xF000 && Minus(m, b) & 0xF000 == m & 0xF000
  {
    assert (m | b) & 0xF000 == (m & 0xF000) | (b & 0xF000);
    assert m & 0xF000 == ((m & !b) & 0xF000) | ((m & b) & 0xF000);
    assert (m & b) & 0xF000 == m & (b & 0xF000);
  }

  // The bits of the file type stay.
  lemma FileTypeStays(op: char, letters: string, who: string, mask: Mode, omode: Mode, m: Mode)
    requires IsOp(op)
    ensures ActionMeaning(Action(op, Perms(letters)), who, mask, omode, m) & 0xF000 == m & 0xF000
  {
    hide ActionMeaning, Allowed, Cleared, AskedBits, Searches, Plus, Minus, Both;
    var allowed, cleared := Allowed(letters, who, mask), Cleared(letters, who);
    var bits := Both(allowed, AskedBits(letters));
    ActionApplies(op, letters, who, mask, omode, m);
    TwelveBits(letters, who, allowed);
    FileTypeUnder(m, bits);
    FileTypeUnder(m, cleared);
    FileTypeUnder(Minus(m, cleared), bits);
    FileTypeUnder(Applied(op, cleared, bits, m), Both(allowed, S_IX));
  }

  // ----- copies

  lemma CopiedBit(from: char, m: Mode, perm: char)
    requires from in "ugo" && perm in "rwx"
    ensures On(CopiedBits(from, m), PermBit('o', perm)) <==> On(m, PermBit(from, perm))
    ensures CopiedBits(from, m) < 8
  {
  }

  lemma PlacedBit(v: Mode, u: bool, g: bool, o: bool, class_: char, perm: char)
    requires v < 8 && class_ in "ugo" && perm in "rwx"
    ensures On(Place(v, u, g, o), PermBit(class_, perm)) <==>
      (if class_ == 'u' then u else if class_ == 'g' then g else o) && On(v, PermBit('o', perm))
    ensures Place(v, u, g, o) < 0x200
  {
  }

  lemma InClassesBit(v: Mode, who: string, mask: Mode, class_: char, perm: char)
    requires v < 8 && class_ in "ugo" && perm in "rwx"
    ensures On(InClasses(v, who, mask), PermBit(class_, perm)) <==>
      MayChange("", who, mask, class_, perm) && On(v, PermBit('o', perm))
    ensures InClasses(v, who, mask) < 0x200
  {
    PlacedBit(v, true, true, true, class_, perm);
    PlacedBit(v, Names(who, 'u'), Names(who, 'g'), Names(who, 'o'), class_, perm);
    PermBitIsSingle(class_, perm);
    OnBoth(Place(v, true, true, true), mask, PermBit(class_, perm));
    BothIsBelow(Place(v, true, true, true), mask);
    hide Place, PermBit, On, Both, Names;
  }

  lemma BothIsBelow(a: Mode, b: Mode)
    requires a < 0x200
    ensures Both(a, b) < 0x200
  {
  }

  // A bit after a copy: the same permission of the class copied from is added, removed or put in its place; and the
  // bits outside the nine permissions stay.
  lemma CopyBit(op: char, from: char, who: string, mask: Mode, omode: Mode, m: Mode, class_: char, perm: char)
    requires IsOp(op) && from in "ugo" && class_ in "ugo" && perm in "rwx"
    ensures var bit, source := PermBit(class_, perm), On(m, PermBit(from, perm));
      var r := ActionMeaning(Action(op, CopyOf(from)), who, mask, omode, m);
      && r & 0xFE00 == m & 0xFE00
      && (On(r, bit) <==>
            if !MayChange("", who, mask, class_, perm) then On(m, bit)
            else if op == '+' then On(m, bit) || source
            else if op == '-' then On(m, bit) && !source
            else source)
  {
    hide PermBit, On, Plus, Minus, InClasses, CopiedBits, Names, IsSingle, MayChange, ActionMeaning, Applied;
    var bit, v := PermBit(class_, perm), CopiedBits(from, m);
    PermBitIsSingle(class_, perm);
    CopiedBit(from, m, perm);
    InClassesBit(v, who, mask, class_, perm);
    InClassesBit(S_IRWXO, who, mask, class_, perm);
    AllOfOther(perm);
    CopyApplies(op, from, who, mask, omode, m);
    AppliedBit(op, InClasses(S_IRWXO, who, mask), InClasses(v, who, mask), m, bit);
    AppliedKeepsHighBits(op, InClasses(S_IRWXO, who, mask), InClasses(v, who, mask), m);
  }

  lemma CopyApplies(op: char, from: char, who: string, mask: Mode, omode: Mode, m: Mode)
    requires IsOp(op)
    ensures ActionMeaning(Action(op, CopyOf(from)), who, mask, omode, m) ==
      Applied(op, InClasses(S_IRWXO, who, mask), InClasses(CopiedBits(from, m), who, mask), m)
  {
    hide InClasses, CopiedBits, Plus, Minus;
  }

  lemma AppliedKeepsHighBits(op: char, cleared: Mode, bits: Mode, m: Mode)
    requires cleared < 0x200 && bits < 0x200
    ensures Applied(op, cleared, bits, m) & 0xFE00 == m & 0xFE00
  {
    hide Plus, Minus;
    HighBitsStay(m, bits);
    HighBitsStay(m, cleared);
    HighBitsStay(Minus(m, cleared), bits);
  }

  lemma AllOfOther(perm: char)
    requires perm in "rwx"
    ensures On(S_IRWXO, PermBit('o', perm))
  {
  }

  lemma HighBitsStay(m: Mode, c: Mode)
    requires c < 0x200
    ensures Plus(m, c) & 0xFE00 == m & 0xFE00 && Minus(m, c) & 0xFE00 == m & 0xFE00
  {
    assert c & 0xFE00 == 0;
    assert (m | c) & 0xFE00 == (m & 0xFE00) | (c & 0xFE00);
    assert !c & 0xFE00 == 0xFE00;
    assert (m & !c) & 0xFE00 == m & (!c & 0xFE00);
  }

  // ----- octal modes

  function Digit(c: char): nat
    requires IsOctal(c)
  {
    c as nat - '0' as nat
  }

  // The digit at position k from the right; 0 in front of the text.
  function DigitFromRight(p: string, k: nat): nat
    requires forall i :: 0 <= i < |p| ==> IsOctal(p[i])
  {
    if k < |p| then Digit(p[|p| - 1 - k]) else 0
  }

  // 4 reads, 2 writes, 1 executes.
  predicate Grants(digit: nat, perm: char) {
    if perm == 'r' then digit == 4 || digit == 5 || digit == 6 || digit == 7
    else if perm == 'w' then digit == 2 || digit == 3 || digit == 6 || digit == 7
    else digit == 1 || digit == 3 || digit == 5 || digit == 7
  }

  lemma {:induction false} OctalAtEnd(p: string, c: char, before: nat)
    requires IsOctal(c) && forall i :: 0 <= i < |p| ==> IsOctal(p[i])
    ensures OctalFrom(p + [c], before) == 8 * OctalFrom(p, before) + Digit(c)
  {
    if p == [] {
      assert [c][1..] == [];
    } else {
      assert (p + [c])[1..] == p[1..] + [c];
      OctalAtEnd(p[1..], c, 8 * before + Digit(p[0]));
    }
  }

  function Front(p: string): string {
    if p == [] then [] else p[..|p| - 1]
  }

  function Shifted(x: Mode, d: Mode): Mode { (x << 3) | d }

  // The last digit of the text is the last three bits.
  lemma OctalStep(p: string)
    requires forall i :: 0 <= i < |p| ==> IsOctal(p[i])
    ensures BitsOf(Octal(p)) == Shifted(BitsOf(Octal(Front(p))), DigitBits(DigitFromRight(p, 0)))
  {
    hide DigitBits, Shifted, BitsOf;
    if p != [] {
      assert p == Front(p) + [p[|p| - 1]];
      OctalAtEnd(Front(p), p[|p| - 1], 0);
    }
    BitsStep(Octal(Front(p)), DigitFromRight(p, 0));
  }

  lemma BitsStep(v: nat, d: nat)
    requires d < 8
    ensures BitsOf(8 * v + d) == Shifted(BitsOf(v), DigitBits(d))
  {
    hide DigitBits;
    if 8 * v + d == 0 {
      assert DigitBits(0) == 0 by { NoBits(); }
    } else {
      assert (8 * v + d) / 8 == v && (8 * v + d) % 8 == d;
    }
  }

  lemma NoBits()
    ensures DigitBits(0) == 0
  {
  }

  lemma DigitsOfFront(p: string, k: nat)
    requires forall i :: 0 <= i < |p| ==> IsOctal(p[i])
    ensures DigitFromRight(p, k + 1) == DigitFromRight(Front(p), k)
  {
  }

  lemma DigitGrants(d: nat)
    requires d < 8
    ensures var b := DigitBits(d);
      b < 8 && (On(b, 4) <==> Grants(d, 'r')) && (On(b, 2) <==> Grants(d, 'w')) && (On(b, 1) <==> Grants(d, 'x'))
  {
  }

  lemma ShiftedLow(x: Mode, d: Mode, bit: Mode)
    requires d < 8 && (bit == 4 || bit == 2 || bit == 1)
    ensures On(Shifted(x, d), bit) <==> On(d, bit)
  {
  }

  lemma ShiftedHigh(x: Mode, d: Mode, bit: Mode, next: Mode)
    requires d < 8 && IsSingle(bit) && bit <= 0x100 && next == bit << 3
    ensures On(Shifted(x, d), next) <==> On(x, bit)
  {
  }

  lemma Places(perm: char)
    requires perm in "rwx"
    ensures var o := PermBit('o', perm);
      && (o == 4 || o == 2 || o == 1)
      && BitAt(o, 0) == o && BitAt(o, 1) == PermBit('g', perm) && BitAt(o, 2) == PermBit('u', perm)
    ensures BitAt(4, 3) == 0x800 && BitAt(2, 3) == 0x400 && BitAt(1, 3) == 0x200
  {
    assert forall low: Mode :: BitAt(low, 1) == BitAt(low, 0) << 3;
    assert forall low: Mode :: BitAt(low, 2) == BitAt(low, 1) << 3;
    assert forall low: Mode :: BitAt(low, 3) == BitAt(low, 2) << 3;
  }

  // The place of a digit's bit, k digits from the right.
  function BitAt(low: Mode, k: nat): Mode {
    if k == 0 then low else BitAt(low, k - 1) << 3
  }

  lemma BitAtIsSingle(low: Mode, k: nat)
    requires (low == 4 || low == 2 || low == 1) && k <= 3
    ensures IsSingle(BitAt(low, k)) && (k < 3 ==> BitAt(low, k) <= 0x100)
  {
    assert BitAt(low, 0) == low;
    assert BitAt(low, 1) == low << 3;
    assert BitAt(low, 2) == (low << 3) << 3;
    assert BitAt(low, 3) == ((low << 3) << 3) << 3;
  }

  // A bit of the k-th digit from the right.
  lemma BitOfDigit(p: string, k: nat, low: Mode)
    requires k <= 3 && forall i :: 0 <= i < |p| ==> IsOctal(p[i])
    requires low == 4 || low == 2 || low == 1
    ensures On(BitsOf(Octal(p)), BitAt(low, k)) <==> On(DigitBits(DigitFromRight(p, k)), low)
    decreases k
  {
    hide On, Octal, BitsOf, DigitBits, DigitFromRight, Front, Shifted, IsSingle;
    OctalStep(p);
    DigitIsBelowEight(p);
    DigitGrants(DigitFromRight(p, 0));
    var x, d := BitsOf(Octal(Front(p))), DigitBits(DigitFromRight(p, 0));
    if k == 0 {
      ShiftedLow(x, d, low);
    } else {
      BitAtIsSingle(low, k - 1);
      ShiftedHigh(x, d, BitAt(low, k - 1), BitAt(low, k));
      FrontIsOctal(p);
      DigitsOfFront(p, k - 1);
      BitOfDigit(Front(p), k - 1, low);
    }
  }

  // The last three digits are for user, group and other; the fourth from the right has the set-id and sticky bits.
  lemma OctalDigits(p: string, perm: char)
    requires perm in "rwx" && forall i :: 0 <= i < |p| ==> IsOctal(p[i])
    ensures var m := BitsOf(Octal(p));
      && (On(m, PermBit('u', perm)) <==> Grants(DigitFromRight(p, 2), perm))
      && (On(m, PermBit('g', perm)) <==> Grants(DigitFromRight(p, 1), perm))
      && (On(m, PermBit('o', perm)) <==> Grants(DigitFromRight(p, 0), perm))
      && (On(m, 0x800) <==> Grants(DigitFromRight(p, 3), 'r'))
      && (On(m, 0x400) <==> Grants(DigitFromRight(p, 3), 'w'))
      && (On(m, STICKY) <==> Grants(DigitFromRight(p, 3), 'x'))
  {
    hide On, Octal, BitsOf, DigitBits, DigitFromRight, Grants, PermBit, BitAt;
    var o := PermBit('o', perm);
    Places(perm);
    BitOfDigit(p, 0, o);
    BitOfDigit(p, 1, o);
    BitOfDigit(p, 2, o);
    BitOfDigit(p, 3, 4);
    BitOfDigit(p, 3, 2);
    BitOfDigit(p, 3, 1);
    GrantsDigit(p, 0, perm);
    GrantsDigit(p, 1, perm);
    GrantsDigit(p, 2, perm);
    GrantsDigit(p, 3, 'r');
    GrantsDigit(p, 3, 'w');
    GrantsDigit(p, 3, 'x');
  }

  lemma GrantsDigit(p: string, k: nat, perm: char)
    requires perm in "rwx" && forall i :: 0 <= i < |p| ==> IsOctal(p[i])
    ensures On(DigitBits(DigitFromRight(p, k)), PermBit('o', perm)) <==> Grants(DigitFromRight(p, k), perm)
    ensures PermBit('o', 'r') == 4 && PermBit('o', 'w') == 2 && PermBit('o', 'x') == 1
  {
    hide On, DigitBits, Grants;
    DigitGrants(DigitFromRight(p, k));
  }

  lemma FrontIsOctal(p: string)
    requires forall i :: 0 <= i < |p| ==> IsOctal(p[i])
    ensures forall i :: 0 <= i < |Front(p)| ==> IsOctal(Front(p)[i])
  {
  }

  lemma DigitIsBelowEight(p: string)
    requires forall i :: 0 <= i < |p| ==> IsOctal(p[i])
    ensures DigitFromRight(p, 0) < 8
  {
  }
}
