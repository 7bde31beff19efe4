// Compiling a symbolic mode and interpreting the commands applies its actions from left to right
// (src/pextlib1.0/setmode.c).
module ModeMeaning {
  import opened CTypes
  import opened ModeCommands
  import opened ModeCompiler

  // ----- who letters

  function WhoFold(who: string): Mode {
    if who == [] then 0 else Plus(WhoBits(who[0]), WhoFold(who[1..]))
  }

  lemma OrAssociates(a: Mode, b: Mode, c: Mode)
    ensures Plus(Plus(a, b), c) == Plus(a, Plus(b, c))
  {
    assert (a | b) | c == a | (b | c);
  }

  lemma {:induction false} CompileWhoLetters(who: string, rest: string, acc: Mode, mask: Mode)
    requires forall w :: w in who ==> IsWho(w)
    requires rest == [] || !IsWho(rest[0])
    ensures CompileWho(who + rest, acc, mask) == CompileOp(rest, Plus(acc, WhoFold(who)), mask)
    decreases who
  {
    hide CompileOp, WhoBits, Plus;
    if who == [] {
      assert who + rest == rest;
      NothingIsNeutral(acc);
    } else {
      assert (who + rest)[1..] == who[1..] + rest;
      CompileWhoLetters(who[1..], rest, Plus(acc, WhoBits(who[0])), mask);
      OrAssociates(acc, WhoBits(who[0]), WhoFold(who[1..]));
    }
  }

  lemma AddClass(c: char, u: bool, g: bool, o: bool)
    requires IsWho(c)
    ensures ClassBits(u || c == 'u' || c == 'a', g || c == 'g' || c == 'a', o || c == 'o' || c == 'a') ==
            Plus(WhoBits(c), ClassBits(u, g, o))
  {
  }

  function ClassBits(u: bool, g: bool, o: bool): Mode {
    (if u then S_ISUID | S_IRWXU else 0) | (if g then S_ISGID | S_IRWXG else 0) | (if o then S_IRWXO else 0)
  }

  lemma {:induction false} WhoFoldIsNamed(who: string)
    requires forall w :: w in who ==> IsWho(w)
    ensures WhoFold(who) == NamedBits(who) == ClassBits(Names(who, 'u'), Names(who, 'g'), Names(who, 'o'))
  {
    if who != [] {
      hide WhoBits, ClassBits, Plus;
      WhoFoldIsNamed(who[1..]);
      AddClass(who[0], Names(who[1..], 'u'), Names(who[1..], 'g'), Names(who[1..], 'o'));
      assert who == [who[0]] + who[1..];
      NamedIsClassBits(who);
    }
  }

  lemma NamedIsClassBits(who: string)
    ensures NamedBits(who) == ClassBits(Names(who, 'u'), Names(who, 'g'), Names(who, 'o'))
  {
  }

  // ----- permission letters

  function LettersRegs(letters: string, r: Regs): Regs
    decreases letters
  {
    if letters == [] then r else LettersRegs(letters[1..], Letter(letters[0], r))
  }

  lemma {:induction false} CompileLetters(letters: string, rest: string, r: Regs, mask: Mode)
    requires forall c :: c in letters ==> IsPerm(c)
    ensures CompilePerms(letters + rest, r, mask) == CompilePerms(rest, LettersRegs(letters, r), mask)
    decreases letters
  {
    if letters == [] {
      assert letters + rest == rest;
    } else {
      hide Letter, Flush;
      assert (letters + rest)[1..] == letters[1..] + rest;
      CompileLetters(letters[1..], rest, Letter(letters[0], r), mask);
    }
  }

  // The bits the letters leave in perm.
  function KeptBits(r: bool, w: bool, x: bool, s: bool, t: bool): Mode {
    (if r then S_IR else 0) | (if w then S_IW else 0) | (if x then S_IX else 0) | (if s then SET_IDS else 0) |
    (if t then S_ISTXT else 0)
  }

  lemma ReadAlone(r: bool, w: bool, x: bool, s: bool, t: bool)
    ensures Plus(S_IR, KeptBits(r, w, x, s, t)) == KeptBits(true, w, x, s, t)
    ensures Plus(S_IW, KeptBits(r, w, x, s, t)) == KeptBits(r, true, x, s, t)
    ensures Plus(S_IX, KeptBits(r, w, x, s, t)) == KeptBits(r, w, true, s, t)
    ensures Plus(SET_IDS, KeptBits(r, w, x, s, t)) == KeptBits(r, w, x, true, t)
    ensures Plus(S_ISTXT, KeptBits(r, w, x, s, t)) == KeptBits(r, w, x, s, true)
  {
  }

  function KeptOf(letters: string, who: Mode): Mode {
    KeptBits('r' in letters, 'w' in letters, 'x' in letters, 's' in letters && KeepsSpecial(who),
             't' in letters && KeepsSpecial(who))
  }

  // The classes after the letters: the sticky bit joins them.
  function WithSticky(letters: string, who: Mode): Mode {
    if 't' in letters && KeepsSpecial(who) then Plus(who, S_ISTXT) else who
  }

  function LetterBits(c: char, who: Mode): Mode {
    if c == 'r' then S_IR else if c == 'w' then S_IW else if c == 'x' then S_IX
    else if c == 's' && KeepsSpecial(who) then SET_IDS
    else if c == 't' && KeepsSpecial(who) then S_ISTXT else 0
  }

  lemma KeptOfCons(c: char, t: string, who: Mode)
    requires IsPerm(c)
    ensures KeptOf([c] + t, who) == Plus(LetterBits(c, who), KeptOf(t, who))
  {
    hide KeptBits, KeepsSpecial, Plus;
    ReadAlone('r' in t, 'w' in t, 'x' in t, 's' in t && KeepsSpecial(who), 't' in t && KeepsSpecial(who));
    NothingIsNeutral(KeptOf(t, who));
    assert forall l :: l in [c] + t <==> l == c || l in t;
  }

  lemma StickyKeepsSpecial(who: Mode)
    ensures KeepsSpecial(who) ==> KeepsSpecial(Plus(who, S_ISTXT)) && Plus(Plus(who, S_ISTXT), S_ISTXT) == Plus(who, S_ISTXT)
  {
  }

  lemma WithStickyCons(c: char, t: string, who: Mode)
    ensures WithSticky([c] + t, who) == WithSticky(t, WithSticky([c], who))
    ensures KeptOf(t, WithSticky([c], who)) == KeptOf(t, who)
  {
    hide KeptBits, KeepsSpecial, Plus;
    StickyKeepsSpecial(who);
    assert forall l :: l in [c] + t <==> l == c || l in t;
  }

  lemma LetterAdds(c: char, r: Regs)
    requires IsPerm(c)
    ensures Letter(c, r) == r.(who := WithSticky([c], r.who), perm := Plus(r.perm, LetterBits(c, r.who)),
                               x := if c == 'X' then S_IX else r.x)
  {
    assert 't' in [c] <==> c == 't';
    hide KeepsSpecial, Plus;
    NothingIsNeutral(r.perm);
  }

  lemma {:induction false} LettersAddUp(letters: string, r: Regs)
    requires forall c :: c in letters ==> IsPerm(c)
    ensures LettersRegs(letters, r) ==
      r.(who := WithSticky(letters, r.who), perm := Plus(r.perm, KeptOf(letters, r.who)),
         x := if 'X' in letters then S_IX else r.x)
    decreases letters
  {
    hide KeptBits, KeepsSpecial, Plus, Letter, LetterBits;
    if letters == [] {
      NoLetters(r.perm);
    } else {
      hide KeptOf, WithSticky;
      var c, t := letters[0], letters[1..];
      assert letters == [c] + t;
      assert c in letters;
      LetterAdds(c, r);
      LettersAddUp(t, Letter(c, r));
      KeptOfCons(c, t, r.who);
      WithStickyCons(c, t, r.who);
      OrAssociates(r.perm, LetterBits(c, r.who), KeptOf(t, r.who));
    }
  }

  lemma NoLetters(a: Mode)
    ensures Plus(a, KeptBits(false, false, false, false, false)) == a
  {
  }

  // ----- one action

  // The registers when the letters of an action have been read.
  function RegsOf(a: Action, who: Mode): Regs {
    match a.what
    case Perms(letters) => 
      Regs(a.op, WithSticky(letters, who), KeptOf(letters, who), if 'X' in letters then S_IX else 0, false)
    case CopyOf(_) => Regs(a.op, who, 0, 0, false)
  }

  // The commands of one action.
  function ActionCmds(a: Action, who: Mode, mask: Mode): seq<BitCmd> {
    match a.what
    case Perms(_) => Flush(RegsOf(a, who), mask)
    case CopyOf(from) => [AddCopy(from, who, a.op, mask)]
  }

  // How the compiler goes on at the end of an action.
  function CompileNext(rest: string, who: Mode, mask: Mode): Option<seq<BitCmd>> {
    if rest == [] then Some([])
    else if rest[0] == ',' then CompileWho(rest[1..], 0, mask)
    else CompileOp(rest, who, mask)
  }

  predicate EndsAction(rest: string) {
    rest == [] || rest[0] == ',' || IsOp(rest[0])
  }

  lemma CompileEnd(rest: string, r: Regs, mask: Mode)
    requires EndsAction(rest)
    ensures CompilePerms(rest, r, mask) == Prepend(Flush(r, mask), CompileNext(rest, r.who, mask))
  {
    hide Flush;
    assert Flush(r, mask) + [] == Flush(r, mask);
  }

  lemma CopyLeavesNothing(a: Action, who: Mode, mask: Mode)
    requires ProperAction(a) && a.what.CopyOf?
    ensures Flush(CopyLetterRegs(RegsOf(a, who)), mask) == []
    ensures CopyLetterOut(a.what.from, RegsOf(a, who), mask) == ActionCmds(a, who, mask)
    ensures CopyLetterRegs(RegsOf(a, who)).who == who
  {
  }

  lemma PrependNothing(a: seq<BitCmd>, r: Option<seq<BitCmd>>)
    ensures Prepend(a, Prepend([], r)) == Prepend(a, r)
  {
    if r.Some? { assert [] + r.value == r.value; }
  }

  // The sticky bit is no class of the next action.
  lemma StickyIsDropped(letters: string, rest: string, who: Mode, mask: Mode)
    requires Minus(who, S_ISTXT) == who && EndsAction(rest)
    ensures CompileNext(rest, WithSticky(letters, who), mask) == CompileNext(rest, who, mask)
  {
    hide CompilePerms, CompileWho;
    assert who & !S_ISTXT == who;
    assert Plus(who, S_ISTXT) & !S_ISTXT == who;
  }

  // An action compiles to its commands, followed by what the rest compiles to.
  lemma CompileAction(a: Action, rest: string, who: Mode, mask: Mode)
    requires ProperAction(a) && EndsAction(rest) && Minus(who, S_ISTXT) == who
    ensures CompileOp(ActionText(a) + rest, who, mask) ==
      Prepend(ActionCmds(a, who, mask), CompileNext(rest, who, mask))
  {
    hide Flush, AddCopy, KeptOf, WithSticky, CompileNext, Plus;
    var p := ActionText(a) + rest;
    assert who & !S_ISTXT == who;
    var r := Regs(a.op, who, 0, 0, false);
    match a.what
    case Perms(letters) =>
      assert p[1..] == letters + rest;
      CompileLetters(letters, rest, r, mask);
      LettersAddUp(letters, r);
      NothingIsNeutral(KeptOf(letters, who));
      CompileEnd(rest, RegsOf(a, who), mask);
      StickyIsDropped(letters, rest, who, mask);
    case CopyOf(from) =>
      assert p[1..] == [from] + rest && p[1..][1..] == rest;
      CopyLeavesNothing(a, who, mask);
      CompileEnd(rest, CopyLetterRegs(r), mask);
      PrependNothing(ActionCmds(a, who, mask), CompileNext(rest, who, mask));
  }

  // ----- whole modes

  function ActionsCmds(actions: seq<Action>, who: Mode, mask: Mode): seq<BitCmd> {
    if actions == [] then [] else ActionCmds(actions[0], who, mask) + ActionsCmds(actions[1..], who, mask)
  }

  function ModeCmds(clauses: seq<Clause>, mask: Mode): seq<BitCmd> {
    if clauses == [] then []
    else ActionsCmds(clauses[0].actions, NamedBits(clauses[0].who), mask) + ModeCmds(clauses[1..], mask)
  }

  lemma PrependTwice(a: seq<BitCmd>, b: seq<BitCmd>, r: Option<seq<BitCmd>>)
    ensures Prepend(a, Prepend(b, r)) == Prepend(a + b, r)
  {
    if r.Some? { assert a + (b + r.value) == a + b + r.value; }
  }

  lemma {:induction false} CompileActions(actions: seq<Action>, rest: string, who: Mode, mask: Mode)
    requires forall a :: a in actions ==> ProperAction(a)
    requires rest == [] || rest[0] == ','
    requires Minus(who, S_ISTXT) == who
    ensures CompileNext(ActionsText(actions) + rest, who, mask) ==
      Prepend(ActionsCmds(actions, who, mask), CompileNext(rest, who, mask))
    decreases actions
  {
    hide ActionCmds, ActionText, ProperAction, Minus, CompileOp, CompileWho, CompileNext;
    if actions == [] {
      assert ActionsText(actions) + rest == rest;
      var r := CompileNext(rest, who, mask);
      if r.Some? { assert [] + r.value == r.value; }
    } else {
      var a, more := actions[0], ActionsText(actions[1..]) + rest;
      assert ActionsText(actions) + rest == ActionText(a) + more;
      assert ProperAction(a);
      ActionTextStart(a, more, who, mask);
      ActionsEndAction(actions[1..], rest, who, mask);
      CompileAction(a, more, who, mask);
      CompileActions(actions[1..], rest, who, mask);
      PrependTwice(ActionCmds(a, who, mask), ActionsCmds(actions[1..], who, mask), CompileNext(rest, who, mask));
    }
  }

  lemma ActionsEndAction(actions: seq<Action>, rest: string, who: Mode, mask: Mode)
    requires forall a :: a in actions ==> ProperAction(a)
    requires rest == [] || rest[0] == ','
    ensures EndsAction(ActionsText(actions) + rest)
  {
    hide ActionText, ProperAction, EndsAction;
    if actions == [] {
      assert ActionsText(actions) + rest == rest;
      assert EndsAction(rest) by { EndOfClause(rest); }
    } else {
      assert ProperAction(actions[0]);
      var more := ActionsText(actions[1..]) + rest;
      assert ActionsText(actions) + rest == ActionText(actions[0]) + more;
      ActionTextStart(actions[0], more, who, mask);
    }
  }

  lemma EndOfClause(rest: string)
    requires rest == [] || rest[0] == ','
    ensures EndsAction(rest)
  {
  }

  lemma ActionTextStart(a: Action, more: string, who: Mode, mask: Mode)
    requires ProperAction(a)
    ensures var p := ActionText(a) + more; p != [] && IsOp(p[0]) && p[0] != ',' && !IsWho(p[0]) && EndsAction(p)
    ensures CompileNext(ActionText(a) + more, who, mask) == CompileOp(ActionText(a) + more, who, mask)
  {
    hide CompileOp;
  }

  lemma NamedBitsHaveNoSticky(who: string)
    ensures Minus(NamedBits(who), S_ISTXT) == NamedBits(who)
  {
  }

  lemma CompileClause(c: Clause, rest: string, mask: Mode)
    requires ProperClause(c) && (rest == [] || rest[0] == ',')
    ensures CompileWho(c.who + (ActionsText(c.actions) + rest), 0, mask) ==
      Prepend(ActionsCmds(c.actions, NamedBits(c.who), mask), CompileNext(rest, NamedBits(c.who), mask))
  {
    hide CompileOp, NamedBits, ActionText, ActionCmds, CompileWho, Plus;
    var p := ActionsText(c.actions) + rest;
    assert p == ActionText(c.actions[0]) + (ActionsText(c.actions[1..]) + rest);
    assert c.actions[0] in c.actions;
    ActionTextStart(c.actions[0], ActionsText(c.actions[1..]) + rest, 0, 0);
    CompileWhoLetters(c.who, p, 0, mask);
    WhoFoldIsNamed(c.who);
    NothingIsNeutral(NamedBits(c.who));
    NamedBitsHaveNoSticky(c.who);
    CompileActions(c.actions, rest, NamedBits(c.who), mask);
  }

  // Every proper symbolic mode is accepted, and compiles to the commands of its actions.
  lemma {:induction false} CompileProperMode(clauses: seq<Clause>, mask: Mode)
    requires ProperMode(clauses)
    ensures ModeText(clauses) != []
    ensures CompileWho(ModeText(clauses), 0, mask) == Some(ModeCmds(clauses, mask))
    decreases clauses
  {
    hide ActionsText, ActionsCmds, NamedBits, CompileWho, CompileOp;
    var c := clauses[0];
    assert ProperClause(c);
    var text := c.who + ActionsText(c.actions);
    TextIsNotEmpty(c);
    if |clauses| == 1 {
      assert text == c.who + (ActionsText(c.actions) + []);
      CompileClause(c, [], mask);
    } else {
      var more := "," + ModeText(clauses[1..]);
      assert ModeText(clauses) == c.who + (ActionsText(c.actions) + more);
      CompileClause(c, more, mask);
      CompileProperMode(clauses[1..], mask);
      assert more[1..] == ModeText(clauses[1..]);
    }
  }

  lemma TextIsNotEmpty(c: Clause)
    requires ProperClause(c)
    ensures c.who + ActionsText(c.actions) != []
  {
  }

  // ----- what the commands mean

  lemma NoOneNamed(who: string)
    requires forall w :: w in who ==> IsWho(w)
    ensures NamedBits(who) == 0 <==> who == []
  {
    if who != [] { assert IsWho(who[0]) && who[0] in who; }
  }

  lemma DroppedBitsAreMasked(w: Mode, r: bool, wr: bool, x: bool, s: bool, t: bool)
    requires !KeepsSpecial(w)
    ensures Both(w, KeptBits(r, wr, x, false, false)) == Both(w, KeptBits(r, wr, x, s, t))
  {
    assert w & !S_IRWXO == 0 ==> w & SET_IDS == 0 && w & S_ISTXT == 0;
  }

  lemma AskedIsKept(letters: string)
    ensures AskedBits(letters) ==
      KeptBits('r' in letters, 'w' in letters, 'x' in letters, 's' in letters, 't' in letters)
  {
  }

  // The set-id and sticky bits the compiler drops are outside the classes named anyway.
  lemma AllowedBits(letters: string, who: Mode, mask: Mode)
    ensures Both(Area(WithSticky(letters, who), mask), KeptOf(letters, who)) ==
            Both(Area(WithSticky(letters, who), mask), AskedBits(letters))
  {
    hide KeptBits, AskedBits, Both;
    AskedIsKept(letters);
    if !KeepsSpecial(who) {
      DroppedBitsAreMasked(who, 'r' in letters, 'w' in letters, 'x' in letters, 's' in letters, 't' in letters);
    }
  }

  lemma BothZero(a: Mode)
    ensures Both(a, 0) == 0
  {
  }

  lemma SpecialClasses(who: string)
    requires forall w :: w in who ==> IsWho(w)
    ensures KeepsSpecial(NamedBits(who)) <==> who == [] || Names(who, 'u') || Names(who, 'g')
  {
    NoOneNamed(who);
  }

  // What the classes named let an action change, and what '=' clears.
  lemma NamedArea(letters: string, who: string, mask: Mode)
    requires forall w :: w in who ==> IsWho(w)
    ensures var w := WithSticky(letters, NamedBits(who));
      && Area(w, mask) == (if who == [] && 't' !in letters then mask else NamedWithSticky(letters, who))
      && ClearedArea(w) == (if who == [] && 't' !in letters then STANDARD_BITS else NamedWithSticky(letters, who))
  {
    hide NamedBits, KeepsSpecial, Plus, Names;
    NoOneNamed(who);
    SpecialClasses(who);
    StickyIsNamed(NamedBits(who));
  }

  lemma StickyIsNamed(w: Mode)
    ensures Plus(w, S_ISTXT) != 0
  {
  }

  lemma AssignMeans(a: Action, who: string, rest: seq<BitCmd>, mask: Mode, omode: Mode, m: Mode)
    requires ProperAction(a) && a.what.Perms? && a.op == '=' && (forall w :: w in who ==> IsWho(w))
    ensures Run(ActionCmds(a, NamedBits(who), mask) + rest, omode, m) ==
            Run(rest, omode, ActionMeaning(a, who, mask, omode, m))
  {
    hide NamedBits, KeptOf, AskedBits, Searchable, Copy, Both, Plus, Minus, Run, When, ActionCmds, WithSticky, Area,
      ClearedArea, NamedWithSticky;
    var letters, w := a.what.letters, WithSticky(a.what.letters, NamedBits(who));
    NamedArea(letters, who, mask);
    AllowedBits(letters, NamedBits(who), mask);
    var one := BitCmd('-', 0, ClearedArea(w));
    var two := BitCmd('+', 0, Both(Area(w, mask), KeptOf(letters, NamedBits(who))));
    var three := BitCmd('X', 0, Both(Area(w, mask), S_IX));
    AssignCmds(a, NamedBits(who), mask, rest);
    RunOfOne(one, [two] + (When('X' in letters, three) + rest), omode, m);
    RunOfOne(two, When('X' in letters, three) + rest, omode, Minus(m, ClearedArea(w)));
    RunWhen('X' in letters, three, rest, omode, Step(two, omode, Minus(m, ClearedArea(w))));
  }

  lemma AssignCmds(a: Action, who: Mode, mask: Mode, rest: seq<BitCmd>)
    requires ProperAction(a) && a.what.Perms? && a.op == '='
    ensures var w := WithSticky(a.what.letters, who);
      ActionCmds(a, who, mask) + rest ==
      [BitCmd('-', 0, ClearedArea(w))] + ([BitCmd('+', 0, Both(Area(w, mask), KeptOf(a.what.letters, who)))] +
        (When('X' in a.what.letters, BitCmd('X', 0, Both(Area(w, mask), S_IX))) + rest))
  {
    hide Both, KeptOf, WithSticky, Area, ClearedArea;
  }

  function When(b: bool, c: BitCmd): seq<BitCmd> { if b then [c] else [] }

  lemma RunWhen(b: bool, c: BitCmd, rest: seq<BitCmd>, omode: Mode, m: Mode)
    requires Mergeable(c)
    ensures Run(When(b, c) + rest, omode, m) == Run(rest, omode, if b then Step(c, omode, m) else m)
  {
    hide Step, Run;
    if b { RunOfOne(c, rest, omode, m); } else { assert When(b, c) + rest == rest; }
  }

  lemma AddRemoveCmds(a: Action, who: Mode, mask: Mode, rest: seq<BitCmd>)
    requires ProperAction(a) && a.what.Perms? && a.op != '='
    ensures var w, kept := WithSticky(a.what.letters, who), KeptOf(a.what.letters, who);
      ActionCmds(a, who, mask) + rest ==
      When(kept != 0, BitCmd(a.op, 0, Both(Area(w, mask), kept))) +
      (When('X' in a.what.letters, BitCmd('X', 0, Both(Area(w, mask), S_IX))) + rest)
  {
    hide Both, KeptOf, WithSticky, Area;
  }

  lemma AddRemoveMeans(a: Action, who: string, rest: seq<BitCmd>, mask: Mode, omode: Mode, m: Mode)
    requires ProperAction(a) && a.what.Perms? && a.op != '=' && (forall w :: w in who ==> IsWho(w))
    ensures Run(ActionCmds(a, NamedBits(who), mask) + rest, omode, m) ==
            Run(rest, omode, ActionMeaning(a, who, mask, omode, m))
  {
    hide NamedBits, KeptOf, AskedBits, Searchable, Copy, Both, Plus, Minus, Run, When, ActionCmds, WithSticky, Area,
      NamedWithSticky;
    var letters, w := a.what.letters, WithSticky(a.what.letters, NamedBits(who));
    var kept := KeptOf(letters, NamedBits(who));
    NamedArea(letters, who, mask);
    AllowedBits(letters, NamedBits(who), mask);
    BothZero(Area(w, mask));
    NothingIsNeutral(m);
    var one := BitCmd(a.op, 0, Both(Area(w, mask), kept));
    var two := BitCmd('X', 0, Both(Area(w, mask), S_IX));
    AddRemoveCmds(a, NamedBits(who), mask, rest);
    RunWhen(kept != 0, one, When('X' in letters, two) + rest, omode, m);
    RunWhen('X' in letters, two, rest, omode, Step(one, omode, m));
  }

  // With no class named, the letter t confines an action to the sticky bit, whatever other letters it has.
  lemma StickyAloneConfines(op: char, letters: string, mask: Mode, omode: Mode, m: Mode)
    requires IsOp(op) && 't' in letters && forall c :: c in letters ==> IsPerm(c)
    ensures ActionMeaning(Action(op, Perms(letters)), "", mask, omode, m) ==
            if op == '-' then Minus(m, S_ISTXT) else Plus(m, S_ISTXT)
  {
    hide AskedBits, KeptBits, Searchable;
    AskedIsKept(letters);
    OnlySticky('r' in letters, 'w' in letters, 'x' in letters, 's' in letters, m);
  }

  lemma OnlySticky(r: bool, w: bool, x: bool, s: bool, m: Mode)
    ensures Both(S_ISTXT, KeptBits(r, w, x, s, true)) == S_ISTXT && Both(S_ISTXT, S_IX) == 0
    ensures Plus(Minus(m, S_ISTXT), S_ISTXT) == Plus(m, S_ISTXT)
    ensures Plus(m, 0) == m
    ensures NamedBits("") == 0 && Plus(0, S_ISTXT) == S_ISTXT
  {
  }

  // The letter X adds search permission under '-' as well: it changes nothing exactly if the original mode is not
  // searchable or the bits are there.
  lemma SearchUnderMinus(who: string, mask: Mode, omode: Mode, m: Mode)
    ensures var allowed := if who == [] then mask else NamedBits(who);
      ActionMeaning(Action('-', Perms("X")), who, mask, omode, m) == m <==>
        !Searchable(omode) || Both(Both(allowed, S_IX), m) == Both(allowed, S_IX)
  {
    var allowed := if who == [] then mask else NamedBits(who);
    hide NamedBits, Searchable;
    assert AskedBits("X") == 0;
    Absorbs(Both(allowed, S_IX), m);
    BothZero(allowed);
  }

  lemma Absorbs(b: Mode, m: Mode)
    ensures Plus(m, b) == m <==> Both(b, m) == b
    ensures Minus(m, 0) == m
  {
    BothOfPlus(b, m);
    PlusOfBoth(b, m);
    MinusNothing(m);
    hide Plus, Both, Minus;
  }

  lemma BothOfPlus(b: Mode, m: Mode)
    ensures Both(b, Plus(m, b)) == b
  {
  }

  lemma PlusOfBoth(b: Mode, m: Mode)
    ensures Plus(m, Both(b, m)) == m
  {
  }

  lemma MinusNothing(m: Mode)
    ensures Minus(m, 0) == m
  {
  }

  // ----- copies

  lemma NamedTargets(who: string)
    ensures NamedBits(who) & S_IRUSR != 0 <==> Names(who, 'u')
    ensures NamedBits(who) & S_IRGRP != 0 <==> Names(who, 'g')
    ensures NamedBits(who) & S_IROTH != 0 <==> Names(who, 'o')
  {
  }

  lemma FlagsOf(u: bool, g: bool, o: bool, op: char)
    requires IsOp(op)
    ensures var f := ((if u then CMD2_UBITS else 0) | (if g then CMD2_GBITS else 0) | (if o then CMD2_OBITS else 0)) | ActionFlags(op);
      && Has(f, CMD2_UBITS) == u && Has(f, CMD2_GBITS) == g && Has(f, CMD2_OBITS) == o
      && Has(f, CMD2_SET) == (op != '-') && Has(f, CMD2_CLR) == (op != '+')
  {
  }

  lemma CopyFlags(from: char, who: string, op: char, mask: Mode)
    requires IsOp(op) && (forall w :: w in who ==> IsWho(w))
    ensures var f := AddCopy(from, NamedBits(who), op, mask).cmd2;
      && Has(f, CMD2_UBITS) == (who == [] || Names(who, 'u'))
      && Has(f, CMD2_GBITS) == (who == [] || Names(who, 'g'))
      && Has(f, CMD2_OBITS) == (who == [] || Names(who, 'o'))
      && Has(f, CMD2_SET) == (op != '-') && Has(f, CMD2_CLR) == (op != '+')
  {
    hide NamedBits, Has, ActionFlags;
    NoOneNamed(who);
    NamedTargets(who);
    FlagsOf(who == [] || Names(who, 'u'), who == [] || Names(who, 'g'), who == [] || Names(who, 'o'), op);
  }

  lemma MaskEverything(v: Mode)
    ensures Both(v, EVERYTHING) == v
  {
    assert v & EVERYTHING == v;
  }

  lemma CopySpreads(from: char, who: string, op: char, mask: Mode, v: Mode)
    requires IsOp(op) && (forall w :: w in who ==> IsWho(w))
    ensures Spread(v, AddCopy(from, NamedBits(who), op, mask)) == InClasses(v, who, mask)
  {
    hide NamedBits, Has, TargetFlags, ActionFlags, Place, Both;
    NoOneNamed(who);
    CopyFlags(from, who, op, mask);
    if who != [] {
      MaskEverything(InClasses(v, who, mask));
    }
  }

  lemma CopyMeans(a: Action, who: string, rest: seq<BitCmd>, mask: Mode, omode: Mode, m: Mode)
    requires ProperAction(a) && a.what.CopyOf? && (forall w :: w in who ==> IsWho(w))
    ensures Run(ActionCmds(a, NamedBits(who), mask) + rest, omode, m) ==
            Run(rest, omode, ActionMeaning(a, who, mask, omode, m))
  {
    hide NamedBits, Has, AddCopy, Spread, InClasses, CopiedBits, Plus, Minus, Run;
    var c := AddCopy(a.what.from, NamedBits(who), a.op, mask);
    CopyCommand(a.what.from, NamedBits(who), a.op, mask);
    CopyFlags(a.what.from, who, a.op, mask);
    CopySpreads(a.what.from, who, a.op, mask, CopiedBits(a.what.from, m));
    CopySpreads(a.what.from, who, a.op, mask, S_IRWXO);
    RunOfOne(c, rest, omode, m);
  }

  lemma CopyCommand(from: char, who: Mode, op: char, mask: Mode)
    ensures AddCopy(from, who, op, mask).cmd == from
  {
  }

  // ----- whole modes

  lemma ActionMeans(a: Action, who: string, rest: seq<BitCmd>, mask: Mode, omode: Mode, m: Mode)
    requires ProperAction(a) && (forall w :: w in who ==> IsWho(w))
    ensures Run(ActionCmds(a, NamedBits(who), mask) + rest, omode, m) ==
            Run(rest, omode, ActionMeaning(a, who, mask, omode, m))
  {
    hide ActionCmds, ActionMeaning, NamedBits, Run, ProperAction;
    if a.what.CopyOf? {
      CopyMeans(a, who, rest, mask, omode, m);
    } else if a.op == '=' {
      AssignMeans(a, who, rest, mask, omode, m);
    } else {
      AddRemoveMeans(a, who, rest, mask, omode, m);
    }
  }

  lemma {:induction false} ActionsMean(actions: seq<Action>, who: string, rest: seq<BitCmd>, mask: Mode, omode: Mode, m: Mode)
    requires (forall a :: a in actions ==> ProperAction(a)) && (forall w :: w in who ==> IsWho(w))
    ensures Run(ActionsCmds(actions, NamedBits(who), mask) + rest, omode, m) ==
            Run(rest, omode, ActionsMeaning(actions, who, mask, omode, m))
    decreases actions
  {
    hide ActionCmds, ActionMeaning, NamedBits, Run, ProperAction;
    var w := NamedBits(who);
    if actions == [] {
      assert ActionsCmds(actions, w, mask) + rest == rest;
    } else {
      var more := ActionsCmds(actions[1..], w, mask) + rest;
      assert ActionsCmds(actions, w, mask) + rest == ActionCmds(actions[0], w, mask) + more;
      assert ProperAction(actions[0]);
      ActionMeans(actions[0], who, more, mask, omode, m);
      ActionsMean(actions[1..], who, rest, mask, omode, ActionMeaning(actions[0], who, mask, omode, m));
    }
  }

  lemma {:induction false} ModeMeans(clauses: seq<Clause>, rest: seq<BitCmd>, mask: Mode, omode: Mode, m: Mode)
    requires forall c :: c in clauses ==> ProperClause(c)
    ensures Run(ModeCmds(clauses, mask) + rest, omode, m) == Run(rest, omode, MeaningOf(clauses, mask, omode, m))
    decreases clauses
  {
    hide ActionsCmds, ActionsMeaning, NamedBits, Run, ProperAction;
    if clauses == [] {
      assert ModeCmds(clauses, mask) + rest == rest;
    } else {
      var c, more := clauses[0], ModeCmds(clauses[1..], mask) + rest;
      assert ProperClause(c);
      assert ModeCmds(clauses, mask) + rest == ActionsCmds(c.actions, NamedBits(c.who), mask) + more;
      ActionsMean(c.actions, c.who, more, mask, omode, m);
      ModeMeans(clauses[1..], rest, mask, omode, ActionsMeaning(c.actions, c.who, mask, omode, m));
    }
  }

  // Compiling, compressing in place and interpreting a symbolic mode applies its actions left to
  // right, whatever lies behind the terminator.
  lemma CompiledModeMeans(clauses: seq<Clause>, mask: Mode, omode: Mode, end: BitCmd, tail: seq<BitCmd>, behind: seq<BitCmd>)
    requires ProperMode(clauses) && end.cmd == NUL
    ensures ModeText(clauses) != [] && CompileMode(ModeText(clauses), mask).Some?
    ensures Run(Compress(CompileMode(ModeText(clauses), mask).value + [end] + tail) + behind, omode, omode) ==
            MeaningOf(clauses, mask, omode, omode)
  {
    hide ModeCmds, Run, Compress, MeaningOf, CompileWho, ModeText;
    CompileProperMode(clauses, mask);
    var cmds := ModeCmds(clauses, mask);
    ModeMeans(clauses, [end], mask, omode, omode);
    assert (cmds + [end])[|cmds|].cmd == NUL && (cmds + [end] + tail)[|cmds|].cmd == NUL;
    RunStopsAtTerminator(cmds + [end], tail, omode, omode);
    CompressedArrayMeansTheSame(cmds + [end] + tail, behind, omode);
    EndStops(end, omode, MeaningOf(clauses, mask, omode, omode));
  }

  lemma EndStops(end: BitCmd, omode: Mode, m: Mode)
    requires end.cmd == NUL
    ensures Run([end], omode, m) == m
  {
  }

  // ----- which texts are accepted

  // What may follow the who letters of a clause: an operator, then operators and letters.
  predicate ActionsLanguage(s: string) {
    s != [] && IsOp(s[0]) && forall c :: c in s ==> IsOp(c) || IsPerm(c) || IsCopyLetter(c)
  }

  predicate ClauseLanguage(s: string) {
    s != [] && (if IsWho(s[0]) then ClauseLanguage(s[1..]) else ActionsLanguage(s))
  }

  function UpToComma(s: string): (n: nat)
    ensures n <= |s| && ',' !in s[..n] && (n < |s| ==> s[n] == ',')
  {
    if s == [] || s[0] == ',' then 0 else 1 + UpToComma(s[1..])
  }

  // Clauses separated by commas.
  predicate ModeLanguage(p: string)
    decreases |p|
  {
    var n := UpToComma(p);
    ClauseLanguage(p[..n]) && (n < |p| ==> ModeLanguage(p[n+1..]))
  }

  // What may follow the first operator of a clause, with the clauses after it.
  predicate RestLanguage(p: string) {
    var n := UpToComma(p);
    (forall c :: c in p[..n] ==> IsOp(c) || IsPerm(c) || IsCopyLetter(c)) && (n < |p| ==> ModeLanguage(p[n+1..]))
  }

  lemma CommaInTail(p: string)
    requires p != [] && p[0] != ','
    ensures UpToComma(p) == 1 + UpToComma(p[1..])
    ensures p[..UpToComma(p)] == [p[0]] + p[1..][..UpToComma(p[1..])]
    ensures UpToComma(p) < |p| ==> p[UpToComma(p)+1..] == p[1..][UpToComma(p[1..])+1..]
  {
  }

  lemma RestInTail(p: string)
    requires p != [] && p[0] != ','
    ensures RestLanguage(p) <==> (IsOp(p[0]) || IsPerm(p[0]) || IsCopyLetter(p[0])) && RestLanguage(p[1..])
  {
    hide UpToComma, ModeLanguage;
    CommaInTail(p);
    var s, t := p[..UpToComma(p)], p[1..][..UpToComma(p[1..])];
    assert forall c :: c in s <==> c == p[0] || c in t;
  }

  lemma {:induction false} PermsAccept(p: string, r: Regs, mask: Mode)
    ensures CompilePerms(p, r, mask).Some? <==> RestLanguage(p)
    decreases |p|, 2
  {
    hide Letter, Flush, CopyLetterOut, CopyLetterRegs, RestLanguage;
    if p == [] {
      EmptyRest();
    } else if p[0] == ',' {
      AfterComma(p);
      WhoAccepts(p[1..], 0, mask);
    } else {
      RestInTail(p);
      if IsPerm(p[0]) {
        PermsAccept(p[1..], Letter(p[0], r), mask);
      } else if IsCopyLetter(p[0]) {
        PermsAccept(p[1..], CopyLetterRegs(r), mask);
      } else {
        OpAccepts(p, r.who, mask);
      }
    }
  }

  lemma EmptyRest()
    ensures RestLanguage([])
  {
  }

  lemma AfterComma(p: string)
    requires p != [] && p[0] == ','
    ensures RestLanguage(p) <==> ModeLanguage(p[1..])
  {
  }

  lemma OpAccepts(p: string, who: Mode, mask: Mode)
    ensures CompileOp(p, who, mask).Some? <==> p != [] && IsOp(p[0]) && RestLanguage(p)
    decreases |p|, 1
  {
    hide CompilePerms, RestLanguage;
    if p != [] && IsOp(p[0]) {
      RestInTail(p);
      PermsAccept(p[1..], Regs(p[0], who & !S_ISTXT, 0, 0, false), mask);
    }
  }

  lemma {:induction false} WhoAccepts(p: string, who: Mode, mask: Mode)
    ensures CompileWho(p, who, mask).Some? <==> ModeLanguage(p)
    decreases |p|, 2
  {
    hide CompileOp, WhoBits, Plus;
    if p == [] || p[0] == ',' {
      OpAccepts(p, who, mask);
    } else {
      CommaInTail(p);
      if IsWho(p[0]) {
        WhoAccepts(p[1..], Plus(who, WhoBits(p[0])), mask);
        assert p[..UpToComma(p)][1..] == p[1..][..UpToComma(p[1..])];
      } else {
        OpAccepts(p, who, mask);
      }
    }
  }

  // The symbolic part of setmode returns a command list exactly for the texts of this language.
  lemma AcceptedLanguage(p: string, mask: Mode)
    ensures CompileMode(p, mask).Some? <==> ModeLanguage(p)
  {
    hide CompileWho;
    WhoAccepts(p, 0, mask);
    if p == [] { assert p[..UpToComma(p)] == []; }
  }
}
