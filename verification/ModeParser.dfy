// setmode as the C code runs it: one pass over the text that fills a growing array of commands
// (src/pextlib1.0/setmode.c).
module ModeParser {
  import opened CTypes
  import opened ModeCommands
  import opened ModeCompiler
  import opened ModeMeaning
  import opened ModeOctal

  const SET_LEN := 6
  const SET_LEN_INCR := 4

  // The growth step of ADDCMD: with fewer than two free places before the last one, take a larger
  // array. Afterwards two commands and the terminator fit.
  method Grow(box: array<BitCmd>, put: nat) returns (grown: array<BitCmd>)
    requires put < box.Length
    ensures put + 2 < grown.Length && grown[..put] == box[..put]
    ensures grown == box || fresh(grown)
  {
    grown := box;
    if put >= box.Length - 2 {
      var place := new BitCmd[box.Length + SET_LEN_INCR];
      forall i | 0 <= i < box.Length {
        place[i] := box[i];
      }
      grown := place;
      assert grown[..put] == box[..put];
    }
  }

  // ADDCMD with '=', '+', '-' or 'X'.
  method PushBits(box: array<BitCmd>, put: nat, op: char, who: Mode, perm: Mode, mask: Mode)
    returns (grown: array<BitCmd>, next: nat)
    requires put < box.Length
    modifies box
    ensures next < grown.Length && (grown == box || fresh(grown))
    ensures grown[..next] == old(box[..put]) + AddBits(op, who, perm, mask)
  {
    hide Both, Area, ClearedArea;
    grown := Grow(box, put);
    next := put;
    var kind := op;
    if op == '=' {
      grown[next] := BitCmd('-', 0, ClearedArea(who));
      next := next + 1;
      kind := '+';
    }
    grown[next] := BitCmd(kind, 0, Both(Area(who, mask), perm));
    next := next + 1;
  }

  // ADDCMD with 'u', 'g' or 'o'.
  method PushCopy(box: array<BitCmd>, put: nat, from: char, who: Mode, op: char, mask: Mode)
    returns (grown: array<BitCmd>, next: nat)
    requires put < box.Length
    modifies box
    ensures next < grown.Length && (grown == box || fresh(grown))
    ensures grown[..next] == old(box[..put]) + [AddCopy(from, who, op, mask)]
  {
    hide AddCopy;
    grown := Grow(box, put);
    grown[put] := AddCopy(from, who, op, mask);
    next := put + 1;
  }

  // What a copy letter flushes and adds.
  method PushCopyLetter(box: array<BitCmd>, put: nat, c: char, r: Regs, mask: Mode) returns (grown: array<BitCmd>, next: nat)
    requires put < box.Length
    modifies box
    ensures next < grown.Length && (grown == box || fresh(grown))
    ensures grown[..next] == old(box[..put]) + CopyLetterOut(c, r, mask)
  {
    hide AddBits, AddCopy;
    grown, next := box, put;
    if r.perm != 0 {
      grown, next := PushBits(grown, next, r.op, r.who, r.perm, mask);
    }
    if r.op == '+' && r.x != 0 {
      grown, next := PushBits(grown, next, 'X', r.who, r.x, mask);
    }
    grown, next := PushCopy(grown, next, c, r.who, r.op, mask);
  }

  // What is flushed at the end of an action.
  method PushFlush(box: array<BitCmd>, put: nat, r: Regs, mask: Mode) returns (grown: array<BitCmd>, next: nat)
    requires put < box.Length
    modifies box
    ensures next < grown.Length && (grown == box || fresh(grown))
    ensures grown[..next] == old(box[..put]) + Flush(r, mask)
  {
    hide AddBits;
    grown, next := box, put;
    if r.perm != 0 || (r.op == '=' && !r.equalDone) {
      grown, next := PushBits(grown, next, r.op, r.who, r.perm, mask);
    }
    if r.x != 0 {
      grown, next := PushBits(grown, next, 'X', r.who, r.x, mask);
    }
  }

  // The permission loop of one action, up to the character it does not know, and the flush.
  method ReadPerms(box: array<BitCmd>, put: nat, p: string, at: nat, op: char, who: Mode, mask: Mode)
    returns (grown: array<BitCmd>, next: nat, end: nat, kept: Mode)
    requires put < box.Length && at <= |p|
    modifies box
    ensures next < grown.Length && (grown == box || fresh(grown))
    ensures at <= end <= |p|
    ensures Prepend(old(box[..put]), CompilePerms(p[at..], Regs(op, who, 0, 0, false), mask)) ==
            Prepend(grown[..next], CompileNext(p[end..], kept, mask))
  {
    hide Letter, Flush, CopyLetterOut, CompileOp, CompileWho;
    var r := Regs(op, who, 0, 0, false);
    grown, next, end := box, put, at;
    ghost var goal := Prepend(box[..put], CompilePerms(p[at..], r, mask));
    while end < |p| && (IsPerm(p[end]) || IsCopyLetter(p[end]))
      invariant at <= end <= |p| && next < grown.Length && (grown == box || fresh(grown))
      invariant goal == Prepend(grown[..next], CompilePerms(p[end..], r, mask))
    {
      assert p[end..][1..] == p[end+1..];
      if IsPerm(p[end]) {
        r := Letter(p[end], r);
      } else {
        ghost var before := grown[..next];
        PrependTwice(before, CopyLetterOut(p[end], r, mask), CompilePerms(p[end+1..], CopyLetterRegs(r), mask));
        grown, next := PushCopyLetter(grown, next, p[end], r, mask);
        r := CopyLetterRegs(r);
      }
      end := end + 1;
    }
    kept := r.who;
    CompileOther(p[end..], r, mask);
    PrependTwice(grown[..next], Flush(r, mask), CompileNext(p[end..], kept, mask));
    grown, next := PushFlush(grown, next, r, mask);
  }

  lemma CompileOther(rest: string, r: Regs, mask: Mode)
    requires rest == [] || !(IsPerm(rest[0]) || IsCopyLetter(rest[0]))
    ensures CompilePerms(rest, r, mask) == Prepend(Flush(r, mask), CompileNext(rest, r.who, mask))
  {
    hide Flush;
    assert Flush(r, mask) + [] == Flush(r, mask);
  }

  // The actions of one clause; done says that the text ended.
  method ReadActions(box: array<BitCmd>, put: nat, p: string, at: nat, who0: Mode, mask: Mode)
    returns (grown: array<BitCmd>, next: nat, end: nat, ok: bool, done: bool)
    requires put < box.Length && at <= |p|
    modifies box
    ensures next < grown.Length && (grown == box || fresh(grown))
    ensures !ok ==> CompileOp(p[at..], who0, mask) == None
    ensures ok && done ==> Prepend(old(box[..put]), CompileOp(p[at..], who0, mask)) == Some(grown[..next])
    ensures at <= end <= |p| && (ok && !done ==> at < end)
    ensures ok && !done ==>
      Prepend(old(box[..put]), CompileOp(p[at..], who0, mask)) == Prepend(grown[..next], CompileWho(p[end..], 0, mask))
  {
    hide CompileOp, CompilePerms, CompileWho, Minus, CompileNext;
    var who := who0;
    grown, next, end, ok, done := box, put, at, true, false;
    ghost var goal := Prepend(box[..put], CompileOp(p[at..], who, mask));
    while true
      invariant at <= end <= |p| && next < grown.Length && (grown == box || fresh(grown))
      invariant goal == Prepend(grown[..next], CompileOp(p[end..], who, mask))
      decreases |p| - end
    {
      OpUnfolds(p, end, who, mask);
      if end == |p| || !IsOp(p[end]) {
        ok := false;
        return;
      }
      var op := p[end];
      who := Minus(who, S_ISTXT);
      grown, next, end, who := ReadPerms(grown, next, p, end + 1, op, who, mask);
      NextUnfolds(p, end, who, mask);
      if end == |p| {
        done := true;
        assert grown[..next] + [] == grown[..next];
        return;
      }
      if p[end] == ',' {
        end := end + 1;
        return;
      }
    }
  }

  lemma OpUnfolds(p: string, at: nat, who: Mode, mask: Mode)
    requires at <= |p|
    ensures CompileOp(p[at..], who, mask) ==
      if at == |p| || !IsOp(p[at]) then None
      else CompilePerms(p[at+1..], Regs(p[at], Minus(who, S_ISTXT), 0, 0, false), mask)
  {
    if at < |p| { assert p[at..][1..] == p[at+1..]; }
  }

  lemma NextUnfolds(p: string, at: nat, who: Mode, mask: Mode)
    requires at <= |p|
    ensures CompileNext(p[at..], who, mask) ==
      if at == |p| then Some([])
      else if p[at] == ',' then CompileWho(p[at+1..], 0, mask) else CompileOp(p[at..], who, mask)
  {
    if at < |p| { assert p[at..][1..] == p[at+1..]; }
  }

  // The clause loop: None stands for the null pointer.
  method ReadMode(p: string, mask: Mode) returns (ok: bool, box: array<BitCmd>, put: nat)
    requires p != []
    ensures ok <==> CompileMode(p, mask).Some?
    ensures fresh(box) && put < box.Length
    ensures ok ==> box[..put] == CompileMode(p, mask).value
  {
    hide CompileOp, WhoBits, Plus;
    box, put := new BitCmd[SET_LEN + 2], 0;
    var at := 0;
    var done := false;
    ghost var goal := CompileWho(p, 0, mask);
    assert p[0..] == p;
    if goal.Some? { assert box[..0] + goal.value == goal.value; }
    while !done
      invariant at <= |p| && put < box.Length && fresh(box)
      invariant !done ==> goal == Prepend(box[..put], CompileWho(p[at..], 0, mask))
      invariant done ==> goal == Some(box[..put])
      decreases !done, |p| - at
    {
      var who: Mode := 0;
      ghost var start := at;
      while at < |p| && IsWho(p[at])
        invariant start <= at <= |p|
        invariant CompileWho(p[start..], 0, mask) == CompileWho(p[at..], who, mask)
      {
        assert p[at..][1..] == p[at+1..];
        who := Plus(who, WhoBits(p[at]));
        at := at + 1;
      }
      assert CompileWho(p[at..], who, mask) == CompileOp(p[at..], who, mask);
      box, put, at, ok, done := ReadActions(box, put, p, at, who, mask);
      if !ok {
        return;
      }
    }
    ok := true;
  }

  lemma DigitsAreNotSymbolic(p: string)
    requires p != [] && IsDecimal(p[0])
    ensures !ModeLanguage(p)
  {
    var s := p[..UpToComma(p)];
    assert s != [] ==> s[0] == p[0];
  }

  // An absolute number: two commands without a terminator.
  method SetOctal(p: string, mask: Mode) returns (r: array?<BitCmd>)
    requires p != [] && IsDecimal(p[0])
    ensures r == null <==> !OctalLanguage(p)
    ensures r != null ==> fresh(r) && r.Length > 2 && r[..2] == OctalCmds(Octal(p))
  {
    hide BitsOf, Octal;
    var perml := Octal(p);
    if perml > ALL_BITS as nat {
      return null;
    }
    for i := 1 to |p|
      invariant forall j :: 1 <= j < i ==> IsOctal(p[j])
    {
      if !IsOctal(p[i]) {
        return null;
      }
    }
    var box := new BitCmd[SET_LEN + 2];
    BitsFit(perml);
    var grown, next := PushBits(box, 0, '=', ALL_BITS, BitsOf(perml), mask);
    assert grown[..next] == AddBits('=', ALL_BITS, BitsOf(perml), mask);
    r := grown;
  }

  // setmode: a null pointer exactly for the texts of neither language. The commands of a symbolic mode are terminated,
  // and getmode turns them into the meaning of the text, whatever mode it starts from.
  method SetMode(p: string, mask: Mode) returns (r: array?<BitCmd>)
    ensures r == null <==> !ModeLanguage(p) && !OctalLanguage(p)
    ensures r != null ==> fresh(r)
    ensures OctalLanguage(p) ==> r != null && r.Length > 2 && r[..2] == OctalCmds(Octal(p))
    ensures ModeLanguage(p) ==> r != null && Terminated(r[..])
    ensures ModeLanguage(p) ==> forall clauses, omode :: ProperMode(clauses) && p == ModeText(clauses) ==>
              Run(r[..], omode, omode) == MeaningOf(clauses, mask, omode, omode)
  {
    hide ModeLanguage, CompileWho, Compress, Run, ModeText, MeaningOf;
    AcceptedLanguage(p, mask);
    if |p| == 0 {
      return null;
    }
    if IsDecimal(p[0]) {
      DigitsAreNotSymbolic(p);
      r := SetOctal(p, mask);
      return;
    }
    r := SetSymbolic(p, mask);
  }

  method SetSymbolic(p: string, mask: Mode) returns (r: array?<BitCmd>)
    requires p != []
    ensures r == null <==> !ModeLanguage(p)
    ensures r != null ==> fresh(r) && Terminated(r[..])
    ensures r != null ==> forall clauses, omode :: ProperMode(clauses) && p == ModeText(clauses) ==>
                          Run(r[..], omode, omode) == MeaningOf(clauses, mask, omode, omode)
  {
    hide ModeLanguage, CompileWho, Compress, Run, ModeText, MeaningOf;
    AcceptedLanguage(p, mask);
    var ok, box, put := ReadMode(p, mask);
    if !ok {
      return null;
    }
    box[put] := box[put].(cmd := NUL);
    ghost var cmds, end, tail := box[..put], box[put], box[put+1..];
    ghost var was := box[..];
    assert was == cmds + [end] + tail && was[put].cmd == NUL;
    CompressMode(box);
    ghost var out := Compress(was);
    assert box[..] == out + box[|out|..];
    var i := TerminatorOf(out);
    assert box[..][i].cmd == NUL;
    forall clauses, omode | ProperMode(clauses) && p == ModeText(clauses)
      ensures Run(box[..], omode, omode) == MeaningOf(clauses, mask, omode, omode)
    {
      CompiledModeMeans(clauses, mask, omode, end, tail, box[|out|..]);
    }
    r := box;
  }

  // Setting a mode and getting it: the two functions together, on any proper symbolic mode.
  method SetThenGet(clauses: seq<Clause>, mask: Mode, omode: Mode) returns (newmode: Mode)
    requires ProperMode(clauses)
    ensures newmode == MeaningOf(clauses, mask, omode, omode)
  {
    hide ModeText, ModeLanguage, Run, MeaningOf, CompileWho;
    AcceptedLanguage(ModeText(clauses), mask);
    CompileProperMode(clauses, mask);
    var box := SetMode(ModeText(clauses), mask);
    newmode := GetMode(box, omode);
  }
}
