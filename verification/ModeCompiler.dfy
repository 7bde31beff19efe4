// The compiler of symbolic modes (the symbolic part of setmode in src/pextlib1.0/setmode.c) as a
// function on the text, and what the commands it produces mean.
module ModeCompiler {
  import opened CTypes
  import opened ModeCommands

  const STANDARD_BITS: Mode := 0x0DFF  // S_ISUID | S_ISGID | S_IRWXU | S_IRWXG | S_IRWXO
  const SET_IDS: Mode := 0x0C00        // S_ISUID | S_ISGID
  const EVERYTHING: Mode := 0xFFFF
  const S_IRUSR: Mode := 0x0100
  const S_IRGRP: Mode := 0x0020
  const S_IROTH: Mode := 0x0004

  // ----- addcmd

  // The bits a command without '=' may touch: those named, or those the mask leaves free.
  function Area(who: Mode, mask: Mode): Mode { if who != 0 then who else mask }

  function ClearedArea(who: Mode): Mode { if who != 0 then who else STANDARD_BITS }

  // addcmd for '=', '+', '-' and 'X'. The cmd2 of these commands is never read.
  function AddBits(op: char, who: Mode, perm: Mode, mask: Mode): seq<BitCmd> {
    if op == '=' then [BitCmd('-', 0, ClearedArea(who)), BitCmd('+', 0, Both(Area(who, mask), perm))]
    else [BitCmd(op, 0, Both(Area(who, mask), perm))]
  }

  function TargetFlags(who: Mode): bv8 {
    if who != 0 then
      (if who & S_IRUSR != 0 then CMD2_UBITS else 0) |
      (if who & S_IRGRP != 0 then CMD2_GBITS else 0) |
      (if who & S_IROTH != 0 then CMD2_OBITS else 0)
    else CMD2_UBITS | CMD2_GBITS | CMD2_OBITS
  }

  function ActionFlags(op: char): bv8 {
    if op == '+' then CMD2_SET else if op == '-' then CMD2_CLR else if op == '=' then CMD2_SET | CMD2_CLR else 0
  }

  // addcmd for 'u', 'g' and 'o'.
  function AddCopy(from: char, who: Mode, op: char, mask: Mode): BitCmd {
    BitCmd(from, TargetFlags(who) | ActionFlags(op), if who != 0 then EVERYTHING else mask)
  }

  // ----- the parser

  predicate IsOp(c: char) { c == '+' || c == '-' || c == '=' }

  function WhoBits(c: char): Mode {
    if c == 'a' then STANDARD_BITS
    else if c == 'u' then S_ISUID | S_IRWXU
    else if c == 'g' then S_ISGID | S_IRWXG
    else if c == 'o' then S_IRWXO
    else 0
  }

  predicate IsWho(c: char) { c == 'a' || c == 'u' || c == 'g' || c == 'o' }

  // The permission loop's registers.
  datatype Regs = Regs(op: char, who: Mode, perm: Mode, x: Mode, equalDone: bool)

  predicate IsPerm(c: char) {
    c == 'r' || c == 's' || c == 't' || c == 'w' || c == 'X' || c == 'x'
  }

  predicate IsCopyLetter(c: char) { c == 'u' || c == 'g' || c == 'o' }

  // Set-id and sticky bits are ignored when only "other" bits were named.
  predicate KeepsSpecial(who: Mode) { who == 0 || who & !S_IRWXO != 0 }

  function Letter(c: char, r: Regs): Regs {
    if c == 'r' then r.(perm := Plus(r.perm, S_IR))
    else if c == 's' then if KeepsSpecial(r.who) then r.(perm := Plus(r.perm, SET_IDS)) else r
    else if c == 't' then
      if KeepsSpecial(r.who) then r.(who := Plus(r.who, S_ISTXT), perm := Plus(r.perm, S_ISTXT)) else r
    else if c == 'w' then r.(perm := Plus(r.perm, S_IW))
    else if c == 'X' then r.(x := S_IX)
    else if c == 'x' then r.(perm := Plus(r.perm, S_IX))
    else r
  }

  // What a copy letter flushes and adds.
  function CopyLetterOut(c: char, r: Regs, mask: Mode): seq<BitCmd> {
    (if r.perm != 0 then AddBits(r.op, r.who, r.perm, mask) else []) +
    (if r.op == '+' && r.x != 0 then AddBits('X', r.who, r.x, mask) else []) +
    [AddCopy(c, r.who, r.op, mask)]
  }

  function CopyLetterRegs(r: Regs): Regs {
    r.(perm := 0, x := if r.op == '+' then 0 else r.x, equalDone := r.equalDone || r.op == '=')
  }

  // What is flushed at the end of an action.
  function Flush(r: Regs, mask: Mode): seq<BitCmd> {
    (if r.perm != 0 || (r.op == '=' && !r.equalDone) then AddBits(r.op, r.who, r.perm, mask) else []) +
    (if r.x != 0 then AddBits('X', r.who, r.x, mask) else [])
  }

  function Prepend(a: seq<BitCmd>, r: Option<seq<BitCmd>>): Option<seq<BitCmd>> {
    if r.None? then None else Some(a + r.value)
  }

  // The commands of the rest of a clause list, from the who letters of a clause on.
  function CompileWho(p: string, who: Mode, mask: Mode): Option<seq<BitCmd>>
    decreases |p|, 2
  {
    if p != [] && IsWho(p[0]) then CompileWho(p[1..], Plus(who, WhoBits(p[0])), mask) else CompileOp(p, who, mask)
  }

  function CompileOp(p: string, who: Mode, mask: Mode): Option<seq<BitCmd>>
    decreases |p|, 1
  {
    if p == [] || !IsOp(p[0]) then None
    else CompilePerms(p[1..], Regs(p[0], who & !S_ISTXT, 0, 0, false), mask)
  }

  function CompilePerms(p: string, r: Regs, mask: Mode): Option<seq<BitCmd>>
    decreases |p|, 2
  {
    if p == [] then Some(Flush(r, mask))
    else if IsPerm(p[0]) then CompilePerms(p[1..], Letter(p[0], r), mask)
    else if IsCopyLetter(p[0]) then
      Prepend(CopyLetterOut(p[0], r, mask), CompilePerms(p[1..], CopyLetterRegs(r), mask))
    else if p[0] == ',' then Prepend(Flush(r, mask), CompileWho(p[1..], 0, mask))
    else Prepend(Flush(r, mask), CompileOp(p, r.who, mask))
  }

  // setmode on a symbolic mode, before compression: None is the null pointer.
  function CompileMode(p: string, mask: Mode): Option<seq<BitCmd>> {
    if p == [] then None else CompileWho(p, 0, mask)
  }

  // ----- symbolic modes and what they mean

  datatype What = Perms(letters: string) | CopyOf(from: char)

  datatype Action = Action(op: char, what: What)

  datatype Clause = Clause(who: string, actions: seq<Action>)

  predicate ProperAction(a: Action) {
    IsOp(a.op) &&
    match a.what
    case Perms(letters) => forall c :: c in letters ==> IsPerm(c)
    case CopyOf(from) => IsCopyLetter(from)
  }

  predicate ProperClause(c: Clause) {
    (forall w :: w in c.who ==> IsWho(w)) && c.actions != [] && forall a :: a in c.actions ==> ProperAction(a)
  }

  predicate ProperMode(clauses: seq<Clause>) {
    clauses != [] && forall c :: c in clauses ==> ProperClause(c)
  }

  function ActionText(a: Action): string {
    [a.op] + match a.what case Perms(letters) => letters case CopyOf(from) => [from]
  }

  function ActionsText(actions: seq<Action>): string {
    if actions == [] then [] else ActionText(actions[0]) + ActionsText(actions[1..])
  }

  // Clauses separated by commas.
  function ModeText(clauses: seq<Clause>): string
    requires clauses != []
  {
    var c := clauses[0].who + ActionsText(clauses[0].actions);
    if |clauses| == 1 then c else c + "," + ModeText(clauses[1..])
  }

  predicate Names(who: string, class_: char) {
    class_ in who || 'a' in who
  }

  // The bits that belong to the classes named: their rwx bits, and the set-id bits of user and group.
  function NamedBits(who: string): Mode {
    (if Names(who, 'u') then S_ISUID | S_IRWXU else 0) |
    (if Names(who, 'g') then S_ISGID | S_IRWXG else 0) |
    (if Names(who, 'o') then S_IRWXO else 0)
  }

  // The bits the letters ask for, in every class.
  function AskedBits(letters: string): Mode {
    (if 'r' in letters then S_IR else 0) | (if 'w' in letters then S_IW else 0) |
    (if 'x' in letters then S_IX else 0) | (if 's' in letters then SET_IDS else 0) |
    (if 't' in letters then S_ISTXT else 0)
  }

  // The sticky bit counts as one of the classes named, unless only "other" is named.
  predicate NamesSticky(letters: string, who: string) {
    't' in letters && (who == [] || Names(who, 'u') || Names(who, 'g'))
  }

  function NamedWithSticky(letters: string, who: string): Mode {
    if NamesSticky(letters, who) then Plus(NamedBits(who), S_ISTXT) else NamedBits(who)
  }

  // Three permission bits put in every class named; with no class named, in all three, as far as
  // the mask allows.
  function InClasses(v: Mode, who: string, mask: Mode): Mode {
    if who == [] then Both(Place(v, true, true, true), mask)
    else Place(v, Names(who, 'u'), Names(who, 'g'), Names(who, 'o'))
  }

  // One action on mode m; omode is the mode the whole change started from.
  function ActionMeaning(a: Action, who: string, mask: Mode, omode: Mode, m: Mode): Mode {
    match a.what
    case Perms(letters) =>
      var nothingNamed := who == [] && 't' !in letters;
      var allowed := if nothingNamed then mask else NamedWithSticky(letters, who);
      var bits := Both(allowed, AskedBits(letters));
      var m' :=
        if a.op == '+' then Plus(m, bits)
        else if a.op == '-' then Minus(m, bits)
        else Plus(Minus(m, if nothingNamed then STANDARD_BITS else NamedWithSticky(letters, who)), bits);
      if 'X' in letters && Searchable(omode) then Plus(m', Both(allowed, S_IX)) else m'
    case CopyOf(from) =>
      var v := CopiedBits(from, m);
      if a.op == '+' then Plus(m, InClasses(v, who, mask))
      else if a.op == '-' then Minus(m, InClasses(v, who, mask))
      else Plus(Minus(m, InClasses(S_IRWXO, who, mask)), InClasses(v, who, mask))
  }

  function ActionsMeaning(actions: seq<Action>, who: string, mask: Mode, omode: Mode, m: Mode): Mode {
    if actions == [] then m
    else ActionsMeaning(actions[1..], who, mask, omode, ActionMeaning(actions[0], who, mask, omode, m))
  }

  // A symbolic mode applies its actions from left to right.
  function MeaningOf(clauses: seq<Clause>, mask: Mode, omode: Mode, m: Mode): Mode {
    if clauses == [] then m
    else
      MeaningOf(clauses[1..], mask, omode, ActionsMeaning(clauses[0].actions, clauses[0].who, mask, omode, m))
  }
}
