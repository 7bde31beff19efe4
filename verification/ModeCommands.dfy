// Bit commands: the interpreter getmode and the optimizer compress_mode
// (src/pextlib1.0/setmode.c).
module ModeCommands {
  import opened CTypes

  type Mode = bv16

  // permission bits of sys/stat.h
  const S_IFDIR: Mode := 0x4000
  const S_ISUID: Mode := 0x0800
  const S_ISGID: Mode := 0x0400
  const S_ISTXT: Mode := 0x0200
  const S_IRWXU: Mode := 0x01C0
  const S_IRWXG: Mode := 0x0038
  const S_IRWXO: Mode := 0x0007
  const S_IR: Mode := 0x0124  // read for user, group and other
  const S_IW: Mode := 0x0092
  const S_IX: Mode := 0x0049

  // flags of cmd2
  const CMD2_CLR: bv8 := 0x01
  const CMD2_SET: bv8 := 0x02
  const CMD2_GBITS: bv8 := 0x04
  const CMD2_OBITS: bv8 := 0x08
  const CMD2_UBITS: bv8 := 0x10

  // Set bits and clear bits of a mode.
  function Plus(m: Mode, b: Mode): Mode { m | b }

  function Minus(m: Mode, b: Mode): Mode { m & !b }

  function Both(a: Mode, b: Mode): Mode { a & b }

  datatype BitCmd = BitCmd(cmd: char, cmd2: bv8, bits: Mode)

  // ----- the interpreter

  // Commands the optimizer merges.
  predicate Mergeable(c: BitCmd) {
    c.cmd == '+' || c.cmd == '-' || c.cmd == 'X'
  }

  predicate Copies(c: BitCmd) {
    c.cmd == 'u' || c.cmd == 'g' || c.cmd == 'o'
  }

  predicate Has(flags: bv8, flag: bv8) {
    flags & flag != 0
  }

  // The three permission bits a copy command reads.
  function CopiedBits(cmd: char, m: Mode): Mode {
    if cmd == 'u' then (m & S_IRWXU) >> 6 else if cmd == 'g' then (m & S_IRWXG) >> 3 else m & S_IRWXO
  }

  // Three permission bits put in the places of user, group and other.
  function Place(v: Mode, u: bool, g: bool, o: bool): Mode {
    (if u then v << 6 else 0) | (if g then v << 3 else 0) | (if o then v else 0)
  }

  function Spread(v: Mode, c: BitCmd): Mode {
    Both(Place(v, Has(c.cmd2, CMD2_UBITS), Has(c.cmd2, CMD2_GBITS), Has(c.cmd2, CMD2_OBITS)), c.bits)
  }

  function Copy(c: BitCmd, m: Mode): Mode {
    var value := CopiedBits(c.cmd, m);
    var cleared :=
      if Has(c.cmd2, CMD2_CLR) then Minus(m, Spread(if Has(c.cmd2, CMD2_SET) then S_IRWXO else value, c)) else m;
    if Has(c.cmd2, CMD2_SET) then Plus(cleared, Spread(value, c)) else cleared
  }

  // Whether 'X' acts: the original mode is a directory or executable by someone.
  predicate Searchable(omode: Mode) {
    omode & (S_IFDIR | S_IX) != 0
  }

  function Step(c: BitCmd, omode: Mode, m: Mode): Mode {
    if c.cmd == '+' then Plus(m, c.bits)
    else if c.cmd == '-' then Minus(m, c.bits)
    else if c.cmd == 'X' then if Searchable(omode) then Plus(m, c.bits) else m
    else Copy(c, m)
  }

  // The new mode: every command in turn up to the first that is none of the six.
  function Run(cmds: seq<BitCmd>, omode: Mode, m: Mode): Mode {
    if cmds == [] || !(Mergeable(cmds[0]) || Copies(cmds[0])) then m
    else Run(cmds[1..], omode, Step(cmds[0], omode, m))
  }

  predicate Terminated(cmds: seq<BitCmd>) {
    exists i :: 0 <= i < |cmds| && cmds[i].cmd == NUL
  }

  // getmode.
  method GetMode(box: array<BitCmd>, omode: Mode) returns (newmode: Mode)
    requires Terminated(box[..])
    ensures newmode == Run(box[..], omode, omode)
  {
    hide Copy, CopiedBits, Plus, Minus, Run, Terminated;
    newmode := omode;
    var i: nat := 0;
    FirstOf(box[..]);
    assert box[0..] == box[..];
    while true
      invariant i < box.Length && Terminated(box[i..])
      invariant Run(box[i..], omode, newmode) == Run(box[..], omode, omode)
      decreases box.Length - i
    {
      var c := box[i];
      ghost var before := newmode;
      assert box[i..] == [c] + box[i+1..];
      RunStops(box[i..], omode, newmode);
      if Copies(c) {
        var value := CopiedBits(c.cmd, newmode);
        newmode := ApplyCopy(c, value, newmode);
      } else if c.cmd == '+' {
        newmode := Plus(newmode, c.bits);
      } else if c.cmd == '-' {
        newmode := Minus(newmode, c.bits);
      } else if c.cmd == 'X' {
        if omode & (S_IFDIR | S_IX) != 0 {
          newmode := Plus(newmode, c.bits);
        }
      } else {
        return;
      }
      assert newmode == Step(c, omode, before);
      RunOfOne(c, box[i+1..], omode, before);
      TerminatedTail(box[i..]);
      assert box[i..][1..] == box[i+1..];
      i := i + 1;
    }
  }

  lemma FirstOf(cmds: seq<BitCmd>)
    requires Terminated(cmds)
    ensures |cmds| > 0
  {
  }

  lemma RunStops(cmds: seq<BitCmd>, omode: Mode, m: Mode)
    ensures cmds != [] && !Mergeable(cmds[0]) && !Copies(cmds[0]) ==> Run(cmds, omode, m) == m
  {
  }

  lemma TerminatedTail(cmds: seq<BitCmd>)
    requires Terminated(cmds) && cmds[0].cmd != NUL
    ensures |cmds| > 1 && Terminated(cmds[1..])
  {
    var j :| 0 <= j < |cmds| && cmds[j].cmd == NUL;
    assert cmds[1..][j-1] == cmds[j];
  }

  lemma ClearInSteps(m: Mode, a: Mode, b: Mode, c: Mode, k: Mode)
    ensures Minus(Minus(Minus(m, Both(a, k)), Both(b, k)), Both(c, k)) == Minus(m, Both(a | b | c, k))
  {
    MinusTwice(m, Both(a, k), Both(b, k));
    MinusTwice(m, Plus(Both(a, k), Both(b, k)), Both(c, k));
    assert ((a & k) | (b & k)) | (c & k) == (a | b | c) & k;
  }

  lemma SetInSteps(m: Mode, a: Mode, b: Mode, c: Mode, k: Mode)
    ensures Plus(Plus(Plus(m, Both(a, k)), Both(b, k)), Both(c, k)) == Plus(m, Both(a | b | c, k))
  {
    assert ((m | (a & k)) | (b & k)) | (c & k) == m | ((a | b | c) & k);
  }

  lemma NoBitsToMask(m: Mode, k: Mode)
    ensures Minus(m, Both(0, k)) == m && Plus(m, Both(0, k)) == m
  {
  }

  lemma ClearByClass(m: Mode, v: Mode, k: Mode, u: bool, g: bool, o: bool)
    ensures var m1 := if u then Minus(m, Both(v << 6, k)) else m;
      var m2 := if g then Minus(m1, Both(v << 3, k)) else m1;
      (if o then Minus(m2, Both(v, k)) else m2) == Minus(m, Both(Place(v, u, g, o), k))
  {
    hide Minus, Both, Plus;
    var a, b, c: Mode := if u then v << 6 else 0, if g then v << 3 else 0, if o then v else 0;
    ClearInSteps(m, a, b, c, k);
    NoBitsToMask(m, k);
    NoBitsToMask(Minus(m, Both(a, k)), k);
    NoBitsToMask(Minus(Minus(m, Both(a, k)), Both(b, k)), k);
  }

  lemma SetByClass(m: Mode, v: Mode, k: Mode, u: bool, g: bool, o: bool)
    ensures var m1 := if u then Plus(m, Both(v << 6, k)) else m;
      var m2 := if g then Plus(m1, Both(v << 3, k)) else m1;
      (if o then Plus(m2, Both(v, k)) else m2) == Plus(m, Both(Place(v, u, g, o), k))
  {
    hide Minus, Both, Plus;
    var a, b, c: Mode := if u then v << 6 else 0, if g then v << 3 else 0, if o then v else 0;
    SetInSteps(m, a, b, c, k);
    NoBitsToMask(m, k);
    NoBitsToMask(Plus(m, Both(a, k)), k);
    NoBitsToMask(Plus(Plus(m, Both(a, k)), Both(b, k)), k);
  }

  // The code the three copy commands share.
  method ApplyCopy(c: BitCmd, value: Mode, mode: Mode) returns (newmode: Mode)
    requires Copies(c) && value == CopiedBits(c.cmd, mode)
    ensures newmode == Copy(c, mode)
  {
    hide CopiedBits, Has;
    newmode := mode;
    if Has(c.cmd2, CMD2_CLR) {
      var clrval := if Has(c.cmd2, CMD2_SET) then S_IRWXO else value;
      newmode := ClearClasses(c, clrval, newmode);
    }
    if Has(c.cmd2, CMD2_SET) {
      newmode := SetClasses(c, value, newmode);
    }
  }

  method ClearClasses(c: BitCmd, clrval: Mode, mode: Mode) returns (newmode: Mode)
    ensures newmode == Minus(mode, Spread(clrval, c))
  {
    hide Has, Minus, Both, Plus, Place;
    newmode := mode;
    if Has(c.cmd2, CMD2_UBITS) { newmode := Minus(newmode, Both(clrval << 6, c.bits)); }
    if Has(c.cmd2, CMD2_GBITS) { newmode := Minus(newmode, Both(clrval << 3, c.bits)); }
    if Has(c.cmd2, CMD2_OBITS) { newmode := Minus(newmode, Both(clrval, c.bits)); }
    ClearByClass(mode, clrval, c.bits, Has(c.cmd2, CMD2_UBITS), Has(c.cmd2, CMD2_GBITS), Has(c.cmd2, CMD2_OBITS));
  }

  method SetClasses(c: BitCmd, value: Mode, mode: Mode) returns (newmode: Mode)
    ensures newmode == Plus(mode, Spread(value, c))
  {
    hide Has, Minus, Both, Plus, Place;
    newmode := mode;
    if Has(c.cmd2, CMD2_UBITS) { newmode := Plus(newmode, Both(value << 6, c.bits)); }
    if Has(c.cmd2, CMD2_GBITS) { newmode := Plus(newmode, Both(value << 3, c.bits)); }
    if Has(c.cmd2, CMD2_OBITS) { newmode := Plus(newmode, Both(value, c.bits)); }
    SetByClass(mode, value, c.bits, Has(c.cmd2, CMD2_UBITS), Has(c.cmd2, CMD2_GBITS), Has(c.cmd2, CMD2_OBITS));
  }

  // ----- the optimizer, as a function

  // What a run of mergeable commands adds up to.
  datatype Sum = Sum(add: Mode, clr: Mode, x: Mode)

  const NOTHING := Sum(0, 0, 0)

  function Absorb(s: Sum, c: BitCmd): Sum {
    if c.cmd == '-' then Sum(Minus(s.add, c.bits), Plus(s.clr, c.bits), Minus(s.x, c.bits))
    else if c.cmd == '+' then Sum(Plus(s.add, c.bits), Minus(s.clr, c.bits), Minus(s.x, c.bits))
    else Sum(s.add, s.clr, Plus(s.x, Minus(c.bits, s.add)))
  }

  function Emit(s: Sum): seq<BitCmd> {
    (if s.clr != 0 then [BitCmd('-', 0, s.clr)] else []) +
    (if s.add != 0 then [BitCmd('+', 0, s.add)] else []) +
    (if s.x != 0 then [BitCmd('X', 0, s.x)] else [])
  }

  // The compressed form of cmds, when s stands for the mergeable commands just before them.
  function Squeeze(s: Sum, cmds: seq<BitCmd>): seq<BitCmd>
    decreases cmds
  {
    if cmds == [] then Emit(s)
    else if Mergeable(cmds[0]) then Squeeze(Absorb(s, cmds[0]), cmds[1..])
    else if cmds[0].cmd == NUL then Emit(s) + [cmds[0]]
    else Emit(s) + ([cmds[0]] + Squeeze(NOTHING, cmds[1..]))
  }

  function Compress(cmds: seq<BitCmd>): seq<BitCmd> { Squeeze(NOTHING, cmds) }

  // ----- it preserves meaning

  function Effect(s: Sum, omode: Mode, m: Mode): Mode {
    var m' := Plus(Minus(m, s.clr), s.add);
    if Searchable(omode) then Plus(m', s.x) else m'
  }

  lemma MinusOfPlus(m: Mode, x: Mode, b: Mode)
    ensures Minus(Plus(m, x), b) == Plus(Minus(m, b), Minus(x, b))
  {
    assert (m | x) & !b == (m & !b) | (x & !b);
  }

  lemma MinusTwice(m: Mode, x: Mode, b: Mode)
    ensures Minus(Minus(m, x), b) == Minus(m, Plus(x, b))
  {
    assert (m & !x) & !b == m & !(x | b);
  }

  lemma PlusAfterMinus(m: Mode, x: Mode, y: Mode, b: Mode)
    ensures Plus(Plus(Minus(m, x), y), b) == Plus(Minus(m, Minus(x, b)), Plus(y, b))
  {
    assert ((m & !x) | y) | b == (m & !(x & !b)) | (y | b);
  }

  lemma PlusAfterPlus(m: Mode, x: Mode, b: Mode)
    ensures Plus(Plus(m, x), b) == Plus(Plus(m, b), Minus(x, b))
  {
    assert (m | x) | b == (m | b) | (x & !b);
  }

  lemma PlusOfNew(m: Mode, y: Mode, x: Mode, b: Mode)
    ensures Plus(Plus(Plus(m, y), x), b) == Plus(Plus(m, y), Plus(x, Minus(b, y)))
  {
    assert ((m | y) | x) | b == (m | y) | (x | (b & !y));
  }

  lemma AbsorbClear(s: Sum, b: Mode, omode: Mode, m: Mode)
    ensures Effect(Sum(Minus(s.add, b), Plus(s.clr, b), Minus(s.x, b)), omode, m) == Minus(Effect(s, omode, m), b)
  {
    hide Plus, Minus, Searchable;
    MinusOfPlus(Plus(Minus(m, s.clr), s.add), s.x, b);
    MinusOfPlus(Minus(m, s.clr), s.add, b);
    MinusTwice(m, s.clr, b);
  }

  lemma AbsorbSet(s: Sum, b: Mode, omode: Mode, m: Mode)
    ensures Effect(Sum(Plus(s.add, b), Minus(s.clr, b), Minus(s.x, b)), omode, m) == Plus(Effect(s, omode, m), b)
  {
    hide Plus, Minus, Searchable;
    PlusAfterMinus(m, s.clr, s.add, b);
    PlusAfterPlus(Plus(Minus(m, s.clr), s.add), s.x, b);
  }

  lemma AbsorbX(s: Sum, b: Mode, omode: Mode, m: Mode)
    ensures Effect(Sum(s.add, s.clr, Plus(s.x, Minus(b, s.add))), omode, m) ==
      var m' := Effect(s, omode, m); if Searchable(omode) then Plus(m', b) else m'
  {
    hide Plus, Minus, Searchable;
    PlusOfNew(Minus(m, s.clr), s.add, s.x, b);
  }

  lemma AbsorbIsStep(s: Sum, c: BitCmd, omode: Mode, m: Mode)
    requires Mergeable(c)
    ensures Effect(Absorb(s, c), omode, m) == Step(c, omode, Effect(s, omode, m))
  {
    hide Plus, Minus, Searchable, Copy, Effect;
    AbsorbClear(s, c.bits, omode, m);
    AbsorbSet(s, c.bits, omode, m);
    AbsorbX(s, c.bits, omode, m);
  }

  lemma RunOfOne(c: BitCmd, rest: seq<BitCmd>, omode: Mode, m: Mode)
    requires Mergeable(c) || Copies(c)
    ensures Run([c] + rest, omode, m) == Run(rest, omode, Step(c, omode, m))
  {
    assert ([c] + rest)[1..] == rest;
  }

  lemma RunOfEmitted(s: Sum, rest: seq<BitCmd>, omode: Mode, m: Mode)
    ensures Run(Emit(s) + rest, omode, m) == Run(rest, omode, Effect(s, omode, m))
  {
    hide Copy, Searchable, Plus, Minus;
    var clr := if s.clr != 0 then [BitCmd('-', 0, s.clr)] else [];
    var add := if s.add != 0 then [BitCmd('+', 0, s.add)] else [];
    var x := if s.x != 0 then [BitCmd('X', 0, s.x)] else [];
    assert Emit(s) + rest == clr + (add + (x + rest));
    var m1 := Minus(m, s.clr);
    RunOfOptional('-', s.clr, add + (x + rest), omode, m);
    RunOfOptional('+', s.add, x + rest, omode, m1);
    RunOfOptional('X', s.x, rest, omode, Plus(m1, s.add));
  }

  lemma RunOfOptional(cmd: char, bits: Mode, rest: seq<BitCmd>, omode: Mode, m: Mode)
    requires cmd == '+' || cmd == '-' || cmd == 'X'
    ensures Run((if bits != 0 then [BitCmd(cmd, 0, bits)] else []) + rest, omode, m) ==
            Run(rest, omode, Step(BitCmd(cmd, 0, bits), omode, m))
  {
    hide Copy, Searchable, Plus, Minus;
    if bits != 0 {
      RunOfOne(BitCmd(cmd, 0, bits), rest, omode, m);
    } else {
      assert [] + rest == rest;
      NoBits(m);
    }
  }

  lemma NoBits(m: Mode)
    ensures Plus(m, 0) == m && Minus(m, 0) == m
  {
  }

  lemma {:induction false} SqueezePreservesMeaning(s: Sum, cmds: seq<BitCmd>, omode: Mode, m: Mode)
    ensures Run(Squeeze(s, cmds), omode, m) == Run(cmds, omode, Effect(s, omode, m))
    decreases cmds
  {
    if cmds == [] {
      RunOfEmitted(s, [], omode, m);
      assert Emit(s) + [] == Emit(s);
    } else if Mergeable(cmds[0]) {
      AbsorbIsStep(s, cmds[0], omode, m);
      SqueezePreservesMeaning(Absorb(s, cmds[0]), cmds[1..], omode, m);
    } else {
      var m' := Effect(s, omode, m);
      if cmds[0].cmd == NUL {
        RunOfEmitted(s, [cmds[0]], omode, m);
      } else {
        var more := Squeeze(NOTHING, cmds[1..]);
        RunOfEmitted(s, [cmds[0]] + more, omode, m);
        assert ([cmds[0]] + more)[1..] == more;
        var m'' := Step(cmds[0], omode, m');
        SqueezePreservesMeaning(NOTHING, cmds[1..], omode, m'');
        assert Effect(NOTHING, omode, m'') == m'';
      }
    }
  }

  // compress_mode preserves meaning: every mode maps to the same mode before and after.
  lemma CompressPreservesMeaning(cmds: seq<BitCmd>, omode: Mode)
    ensures Run(Compress(cmds), omode, omode) == Run(cmds, omode, omode)
  {
    SqueezePreservesMeaning(NOTHING, cmds, omode, omode);
    assert Effect(NOTHING, omode, omode) == omode;
  }

  // ----- what the compressed form looks like

  function Rank(c: BitCmd): nat {
    if c.cmd == '-' then 0 else if c.cmd == '+' then 1 else 2
  }

  // Among neighbours that could be merged, '-' comes before '+' and '+' before 'X'.
  predicate Tight(cmds: seq<BitCmd>) {
    forall i :: 0 <= i < |cmds| - 1 && Mergeable(cmds[i]) && Mergeable(cmds[i+1]) ==> Rank(cmds[i]) < Rank(cmds[i+1])
  }

  // A run of neighbours that could be merged has at most three commands.
  lemma TightRunsAreShort(cmds: seq<BitCmd>, i: nat, n: nat)
    requires Tight(cmds) && i + n <= |cmds|
    requires forall j :: i <= j < i + n ==> Mergeable(cmds[j])
    ensures n <= 3
  {
    assert n > 1 ==> Rank(cmds[i]) < Rank(cmds[i+1]);
    assert n > 2 ==> Rank(cmds[i+1]) < Rank(cmds[i+2]);
    assert n > 3 ==> Rank(cmds[i+2]) < Rank(cmds[i+3]);
  }

  lemma EmittedIsTight(s: Sum)
    ensures Tight(Emit(s)) && |Emit(s)| <= 3
    ensures forall i :: 0 <= i < |Emit(s)| ==> Mergeable(Emit(s)[i])
  {
  }

  lemma {:induction false} SqueezeIsTight(s: Sum, cmds: seq<BitCmd>)
    ensures Tight(Squeeze(s, cmds))
    decreases cmds
  {
    hide Absorb, Emit;
    EmittedIsTight(s);
    if cmds != [] {
      if Mergeable(cmds[0]) {
        SqueezeIsTight(Absorb(s, cmds[0]), cmds[1..]);
      } else if cmds[0].cmd != NUL {
        var tail := Squeeze(NOTHING, cmds[1..]);
        SqueezeIsTight(NOTHING, cmds[1..]);
        var rest := [cmds[0]] + tail;
        assert forall i :: 0 <= i < |rest| - 1 && Mergeable(rest[i]) ==> rest[i] == tail[i-1] && rest[i+1] == tail[i];
        assert Tight(rest);
        TightConcat(Emit(s), rest);
      } else {
        TightConcat(Emit(s), [cmds[0]]);
      }
    }
  }

  lemma TightConcat(a: seq<BitCmd>, b: seq<BitCmd>)
    requires Tight(a) && Tight(b) && (b == [] || !Mergeable(b[0]))
    ensures Tight(a + b)
  {
    var c := a + b;
    forall i | 0 <= i < |c| - 1 && Mergeable(c[i]) && Mergeable(c[i+1]) ensures Rank(c[i]) < Rank(c[i+1]) {
      if i >= |a| { assert c[i] == b[i-|a|] && c[i+1] == b[i+1-|a|]; }
    }
  }

  // The copy commands and whatever else is not merged, up to the terminator.
  function Kept(cmds: seq<BitCmd>): seq<BitCmd> {
    if cmds == [] then []
    else if Mergeable(cmds[0]) then Kept(cmds[1..])
    else if cmds[0].cmd == NUL then [cmds[0]]
    else [cmds[0]] + Kept(cmds[1..])
  }

  lemma {:induction false} KeptOfMergeable(a: seq<BitCmd>, b: seq<BitCmd>)
    requires forall i :: 0 <= i < |a| ==> Mergeable(a[i])
    ensures Kept(a + b) == Kept(b)
  {
    if a == [] {
      assert a + b == b;
    } else {
      assert (a + b)[1..] == a[1..] + b;
      KeptOfMergeable(a[1..], b);
    }
  }

  lemma {:induction false} SqueezeKeepsTheRest(s: Sum, cmds: seq<BitCmd>)
    ensures Kept(Squeeze(s, cmds)) == Kept(cmds)
    decreases cmds
  {
    hide Absorb, Emit;
    EmittedIsTight(s);
    if cmds == [] {
      KeptOfMergeable(Emit(s), []);
      assert Emit(s) + [] == Emit(s);
    } else if Mergeable(cmds[0]) {
      SqueezeKeepsTheRest(Absorb(s, cmds[0]), cmds[1..]);
    } else if cmds[0].cmd == NUL {
      KeptOfMergeable(Emit(s), [cmds[0]]);
    } else {
      var tail := Squeeze(NOTHING, cmds[1..]);
      KeptOfMergeable(Emit(s), [cmds[0]] + tail);
      SqueezeKeepsTheRest(NOTHING, cmds[1..]);
      assert ([cmds[0]] + tail)[1..] == tail;
    }
  }

  // compress_mode merges every run of '+', '-' and 'X' into at most three commands and keeps the
  // other commands in their order.
  lemma CompressedShape(cmds: seq<BitCmd>, i: nat, n: nat)
    ensures Tight(Compress(cmds)) && Kept(Compress(cmds)) == Kept(cmds)
    ensures i + n <= |Compress(cmds)| && (forall j :: i <= j < i + n ==> Mergeable(Compress(cmds)[j])) ==> n <= 3
  {
    hide Squeeze;
    SqueezeIsTight(NOTHING, cmds);
    SqueezeKeepsTheRest(NOTHING, cmds);
    if i + n <= |Compress(cmds)| && (forall j :: i <= j < i + n ==> Mergeable(Compress(cmds)[j])) {
      TightRunsAreShort(Compress(cmds), i, n);
    }
  }

  // ----- compressing twice

  predicate Settled(s: Sum) {
    Minus(s.clr, s.add) == s.clr && Minus(s.x, s.add) == s.x
  }

  lemma MinusAbsorbsSet(a: Mode, b: Mode, c: Mode)
    requires Minus(a, b) == a
    ensures Minus(Minus(a, c), Plus(b, c)) == Minus(a, c)
  {
    assert a & !b == a ==> (a & !c) & !(b | c) == a & !c;
  }

  lemma MinusAbsorbsClear(a: Mode, b: Mode, c: Mode)
    requires Minus(a, b) == a
    ensures Minus(Plus(a, c), Minus(b, c)) == Plus(a, c)
  {
    assert a & !b == a ==> (a | c) & !(b & !c) == a | c;
  }

  lemma MinusAbsorbsBoth(a: Mode, b: Mode, c: Mode)
    requires Minus(a, b) == a
    ensures Minus(Minus(a, c), Minus(b, c)) == Minus(a, c)
  {
    assert a & !b == a ==> (a & !c) & !(b & !c) == a & !c;
  }

  lemma MinusAbsorbsNew(a: Mode, b: Mode, c: Mode)
    requires Minus(a, b) == a
    ensures Minus(Plus(a, Minus(c, b)), b) == Plus(a, Minus(c, b))
  {
    hide Plus, Minus;
    MinusOfPlus(a, Minus(c, b), b);
    MinusAgain(c, b);
  }

  lemma MinusAgain(a: Mode, b: Mode)
    ensures Minus(Minus(a, b), b) == Minus(a, b)
  {
    assert (a & !b) & !b == a & !b;
  }

  lemma AbsorbKeepsSettled(s: Sum, c: BitCmd)
    requires Mergeable(c) && Settled(s)
    ensures Settled(Absorb(s, c))
  {
    hide Plus, Minus;
    if c.cmd == '-' {
      MinusAbsorbsClear(s.clr, s.add, c.bits);
      MinusAbsorbsBoth(s.x, s.add, c.bits);
    } else if c.cmd == '+' {
      MinusAbsorbsSet(s.clr, s.add, c.bits);
      MinusAbsorbsSet(s.x, s.add, c.bits);
    } else {
      MinusAbsorbsNew(s.x, s.add, c.bits);
    }
  }

  lemma NothingIsNeutral(a: Mode)
    ensures Plus(0, a) == a && Minus(0, a) == 0 && Plus(a, 0) == a && Minus(a, 0) == a
  {
  }

  lemma SqueezeOptional(s: Sum, cmd: char, bits: Mode, rest: seq<BitCmd>)
    requires cmd == '+' || cmd == '-' || cmd == 'X'
    ensures Squeeze(s, (if bits != 0 then [BitCmd(cmd, 0, bits)] else []) + rest) ==
            Squeeze(Absorb(s, BitCmd(cmd, 0, bits)), rest)
  {
    hide Plus, Minus, Emit;
    if bits != 0 {
      assert ([BitCmd(cmd, 0, bits)] + rest)[1..] == rest;
    } else {
      assert [] + rest == rest;
      NothingIsNeutral(s.add);
      NothingIsNeutral(s.clr);
      NothingIsNeutral(s.x);
    }
  }

  // Emitted commands add up again to the sum they came from.
  lemma SqueezeOfEmitted(s: Sum, rest: seq<BitCmd>)
    requires Settled(s)
    ensures Squeeze(NOTHING, Emit(s) + rest) == Squeeze(s, rest)
  {
    hide Plus, Minus, Squeeze;
    var clr := if s.clr != 0 then [BitCmd('-', 0, s.clr)] else [];
    var add := if s.add != 0 then [BitCmd('+', 0, s.add)] else [];
    var x := if s.x != 0 then [BitCmd('X', 0, s.x)] else [];
    assert Emit(s) + rest == clr + (add + (x + rest));
    SqueezeOptional(NOTHING, '-', s.clr, add + (x + rest));
    SqueezeOptional(Sum(0, s.clr, 0), '+', s.add, x + rest);
    SqueezeOptional(Sum(s.add, s.clr, 0), 'X', s.x, rest);
    NothingIsNeutral(s.clr);
    NothingIsNeutral(s.add);
    NothingIsNeutral(s.x);
  }

  lemma {:induction false} SqueezeTwice(s: Sum, cmds: seq<BitCmd>)
    requires Settled(s)
    ensures Squeeze(NOTHING, Squeeze(s, cmds)) == Squeeze(s, cmds)
    decreases cmds
  {
    hide Absorb, Emit, Settled;
    if cmds == [] {
      assert Emit(s) + [] == Emit(s);
      SqueezeOfEmitted(s, []);
    } else if Mergeable(cmds[0]) {
      AbsorbKeepsSettled(s, cmds[0]);
      SqueezeTwice(Absorb(s, cmds[0]), cmds[1..]);
    } else if cmds[0].cmd == NUL {
      SqueezeOfEmitted(s, [cmds[0]]);
    } else {
      var tail := Squeeze(NOTHING, cmds[1..]);
      SqueezeOfEmitted(s, [cmds[0]] + tail);
      assert ([cmds[0]] + tail)[1..] == tail;
      NothingIsSettled();
      SqueezeTwice(NOTHING, cmds[1..]);
    }
  }

  lemma NothingIsSettled()
    ensures Settled(NOTHING)
  {
  }

  // Compressing a second time changes nothing.
  lemma CompressIsIdempotent(cmds: seq<BitCmd>)
    ensures Compress(Compress(cmds)) == Compress(cmds)
  {
    hide Squeeze;
    NothingIsSettled();
    SqueezeTwice(NOTHING, cmds);
  }

  // ----- the optimizer in place

  lemma AbsorbCosts(s: Sum, c: BitCmd)
    ensures |Emit(Absorb(s, c))| <= |Emit(s)| + 1
  {
    hide Plus, Minus;
    assert forall b :: Minus(0, b) == 0 by { forall b ensures Minus(0, b) == 0 { NothingIsNeutral(b); } }
  }

  lemma {:induction false} SqueezeKeepsTerminator(s: Sum, cmds: seq<BitCmd>)
    requires Terminated(cmds)
    ensures Terminated(Squeeze(s, cmds))
    decreases cmds
  {
    hide Absorb, Emit, Terminated;
    assert cmds != [] by { var i := TerminatorOf(cmds); }
    if Mergeable(cmds[0]) {
      TerminatedTail(cmds);
      SqueezeKeepsTerminator(Absorb(s, cmds[0]), cmds[1..]);
    } else if cmds[0].cmd == NUL {
      TerminatedInside(Emit(s), [cmds[0]], 0);
    } else {
      TerminatedTail(cmds);
      SqueezeKeepsTerminator(NOTHING, cmds[1..]);
      var tail := Squeeze(NOTHING, cmds[1..]);
      var i := TerminatorOf(tail);
      TerminatedInside(Emit(s), [cmds[0]] + tail, i + 1);
    }
  }

  lemma TerminatorOf(cmds: seq<BitCmd>) returns (i: nat)
    requires Terminated(cmds)
    ensures i < |cmds| && cmds[i].cmd == NUL
  {
    i :| i < |cmds| && cmds[i].cmd == NUL;
  }

  lemma TerminatedInside(a: seq<BitCmd>, b: seq<BitCmd>, i: nat)
    requires i < |b| && b[i].cmd == NUL
    ensures Terminated(a + b)
  {
    assert (a + b)[|a|+i] == b[i];
  }

  lemma {:induction false} RunStopsAtTerminator(a: seq<BitCmd>, b: seq<BitCmd>, omode: Mode, m: Mode)
    requires Terminated(a)
    ensures Run(a + b, omode, m) == Run(a, omode, m)
    decreases a
  {
    hide Step, Terminated;
    assert a != [] by { var i := TerminatorOf(a); }
    if Mergeable(a[0]) || Copies(a[0]) {
      TerminatedTail(a);
      assert (a + b)[1..] == a[1..] + b;
      RunStopsAtTerminator(a[1..], b, omode, Step(a[0], omode, m));
    }
  }

  lemma SqueezeAtStop(s: Sum, cmds: seq<BitCmd>)
    requires cmds != [] && !Mergeable(cmds[0])
    ensures Squeeze(s, cmds) == Emit(s) + Squeeze(NOTHING, cmds)
    ensures Squeeze(NOTHING, cmds) == [cmds[0]] + (if cmds[0].cmd == NUL then [] else Squeeze(NOTHING, cmds[1..]))
  {
    assert Emit(NOTHING) == [];
    assert [cmds[0]] + [] == [cmds[0]];
  }

  lemma SqueezeMergeable(s: Sum, cmds: seq<BitCmd>)
    requires cmds != [] && Mergeable(cmds[0])
    ensures Squeeze(s, cmds) == Squeeze(Absorb(s, cmds[0]), cmds[1..])
  {
  }

  function Optional(cmd: char, bits: Mode): seq<BitCmd> {
    if bits != 0 then [BitCmd(cmd, 0, bits)] else []
  }

  // Write one merged command, if it has bits.
  method PutMerged(box: array<BitCmd>, put: nat, cmd: char, bits: Mode) returns (next: nat)
    requires put + |Optional(cmd, bits)| <= box.Length
    modifies box
    ensures next == put + |Optional(cmd, bits)|
    ensures box[..next] == old(box[..put]) + Optional(cmd, bits) && box[next..] == old(box[next..])
  {
    next := put;
    if bits != 0 {
      box[put] := BitCmd(cmd, 0, bits);
      next := put + 1;
    }
  }

  // Copy commands down until a mergeable one or the terminator comes up.
  method CopyKept(box: array<BitCmd>, put0: nat, get0: nat) returns (put: nat, get: nat, done: bool)
    requires put0 <= get0 < box.Length && Terminated(box[get0..])
    modifies box
    ensures put0 <= put <= get <= box.Length && get0 <= get && box[put..] == old(box[put..])
    ensures done ==> box[..put] == old(box[..put0]) + Squeeze(NOTHING, old(box[get0..]))
    ensures !done ==> get < box.Length && Mergeable(box[get]) && Terminated(box[get..])
    ensures !done ==> box[..put] + Squeeze(NOTHING, box[get..]) == old(box[..put0]) + Squeeze(NOTHING, old(box[get0..]))
  {
    hide Squeeze, Emit, Terminated;
    ghost var was := box[..];
    put, get, done := put0, get0, false;
    while !Mergeable(box[get])
      invariant put0 <= put <= get < box.Length && get0 <= get && Terminated(was[get..])
      invariant box[put..] == was[put..]
      invariant box[..put] + Squeeze(NOTHING, was[get..]) == was[..put0] + Squeeze(NOTHING, was[get0..])
      decreases box.Length - get
    {
      var op := box[get].cmd;
      ghost var before, c := box[..], box[get];
      assert c == before[put..][get-put] == was[put..][get-put] == was[get];
      SqueezeAtStop(NOTHING, was[get..]);
      assert was[get..][1..] == was[get+1..] && was[get..][0] == c;
      box[put] := box[get];
      assert box[..] == before[put := c];
      WrittenAt(before, was, put, c);
      Regroup(before[..put], c, Squeeze(NOTHING, was[get+1..]));
      put, get := put + 1, get + 1;
      if op == NUL {
        return put, get, true;
      }
      TerminatedTail(was[get-1..]);
    }
    assert box[get..] == was[get..];
  }

  lemma WrittenAt(s: seq<BitCmd>, was: seq<BitCmd>, p: nat, c: BitCmd)
    requires p < |s| == |was| && s[p..] == was[p..]
    ensures s[p := c][p+1..] == was[p+1..] && s[p := c][..p+1] == s[..p] + [c]
  {
    assert s[p+1..] == s[p..][1..] && was[p+1..] == was[p..][1..];
  }

  lemma Regroup(a: seq<BitCmd>, c: BitCmd, b: seq<BitCmd>)
    ensures (a + [c]) + b == a + ([c] + b)
  {
  }

  // Add up the run of mergeable commands at get.
  method SumRun(box: array<BitCmd>, get0: nat) returns (get: nat, ghost s: Sum, setbits: Mode, clrbits: Mode, xbits: Mode)
    requires get0 < box.Length && Terminated(box[get0..]) && Mergeable(box[get0])
    ensures get0 < get < box.Length && Terminated(box[get..]) && !Mergeable(box[get])
    ensures s == Sum(setbits, clrbits, xbits) && |Emit(s)| <= get - get0
    ensures Squeeze(s, box[get..]) == Squeeze(NOTHING, box[get0..])
  {
    hide Squeeze, Terminated, Plus, Minus;
    s, setbits, clrbits, xbits := NOTHING, 0, 0, 0;
    get := get0;
    while Mergeable(box[get])
      invariant get0 <= get < box.Length && Terminated(box[get..]) && (get == get0 ==> Mergeable(box[get]))
      invariant s == Sum(setbits, clrbits, xbits) && |Emit(s)| <= get - get0
      invariant Squeeze(s, box[get..]) == Squeeze(NOTHING, box[get0..])
      decreases box.Length - get
    {
      var c := box[get];
      AbsorbCosts(s, c);
      SqueezeMergeable(s, box[get..]);
      assert box[get..][1..] == box[get+1..];
      s := Absorb(s, c);
      if c.cmd == '-' {
        clrbits := Plus(clrbits, c.bits);
        setbits := Minus(setbits, c.bits);
        xbits := Minus(xbits, c.bits);
      } else if c.cmd == '+' {
        setbits := Plus(setbits, c.bits);
        clrbits := Minus(clrbits, c.bits);
        xbits := Minus(xbits, c.bits);
      } else {
        xbits := Plus(xbits, Minus(c.bits, setbits));
      }
      TerminatedTail(box[get..]);
      get := get + 1;
    }
  }

  // Write what a run added up to.
  method PutSum(box: array<BitCmd>, put: nat, ghost s: Sum, setbits: Mode, clrbits: Mode, xbits: Mode) returns (next: nat)
    requires s == Sum(setbits, clrbits, xbits) && put + |Emit(s)| <= box.Length
    modifies box
    ensures next == put + |Emit(s)|
    ensures box[..next] == old(box[..put]) + Emit(s) && box[next..] == old(box[next..])
  {
    hide Emit, Optional;
    EmitIsOptionals(s);
    ghost var was := box[..];
    next := PutMerged(box, put, '-', clrbits);
    ghost var one, k := box[..], next;
    next := PutMerged(box, next, '+', setbits);
    ghost var two, l := box[..], next;
    next := PutMerged(box, next, 'X', xbits);
    SameTail(was, one, k, next);
    SameTail(one, two, l, next);
    assert box[next..] == two[next..] == one[next..] == was[next..];
  }

  lemma SameTail(s: seq<BitCmd>, t: seq<BitCmd>, i: nat, j: nat)
    requires i <= j <= |s| == |t| && s[i..] == t[i..]
    ensures s[j..] == t[j..]
  {
    assert s[i..][j-i..] == s[j..] && t[i..][j-i..] == t[j..];
  }

  // compress_mode: the write index never passes the read index, and what lies behind the
  // compressed list stays as it was.
  method CompressMode(box: array<BitCmd>)
    requires Terminated(box[..])
    modifies box
    ensures var was := old(box[..]);
      && |Compress(was)| <= box.Length
      && box[..|Compress(was)|] == Compress(was) && box[|Compress(was)|..] == was[|Compress(was)|..]
    ensures Terminated(Compress(old(box[..])))
  {
    hide Squeeze, Emit, Terminated;
    ghost var was := box[..];
    SqueezeKeepsTerminator(NOTHING, was);
    assert was[0..] == was;
    assert box.Length > 0 by { var i := TerminatorOf(was); }
    var put: nat, get: nat := 0, 0;
    while true
      invariant put <= get < box.Length && Terminated(box[get..])
      invariant box[put..] == was[put..]
      invariant box[..put] + Squeeze(NOTHING, box[get..]) == Compress(was)
      decreases box.Length - get
    {
      var done;
      put, get, done := CopyKept(box, put, get);
      if done {
        return;
      }
      put, get := CompressRun(box, put, get, was);
    }
  }

  // One run of mergeable commands is summed up and written back.
  method CompressRun(box: array<BitCmd>, putBefore: nat, getBefore: nat, ghost was: seq<BitCmd>)
    returns (put: nat, get: nat)
    requires putBefore <= getBefore < box.Length && Mergeable(box[getBefore]) && Terminated(box[getBefore..])
    requires |was| == box.Length && box[putBefore..] == was[putBefore..]
    requires box[..putBefore] + Squeeze(NOTHING, box[getBefore..]) == Compress(was)
    modifies box
    ensures put <= get < box.Length && getBefore < get && Terminated(box[get..])
    ensures box[put..] == was[put..]
    ensures box[..put] + Squeeze(NOTHING, box[get..]) == Compress(was)
  {
    hide Squeeze, Emit, Terminated, Compress;
    ghost var s;
    var setbits, clrbits, xbits;
    get, s, setbits, clrbits, xbits := SumRun(box, getBefore);
    SqueezeAtStop(s, box[get..]);
    ghost var before, head, rest := box[..], box[..putBefore], box[get..];
    put := PutSum(box, putBefore, s, setbits, clrbits, xbits);
    TailOfTail(box[..], before, put, get);
    TailOfTail(before, was, putBefore, put);
    assert head + (Emit(s) + Squeeze(NOTHING, rest)) == head + Emit(s) + Squeeze(NOTHING, rest);
  }

  lemma TailOfTail(a: seq<BitCmd>, b: seq<BitCmd>, i: nat, j: nat)
    requires i <= j <= |a| == |b| && a[i..] == b[i..]
    ensures a[j..] == b[j..]
  {
    assert a[j..] == a[i..][j-i..] && b[j..] == b[i..][j-i..];
  }

  lemma EmitIsOptionals(s: Sum)
    ensures Emit(s) == Optional('-', s.clr) + Optional('+', s.add) + Optional('X', s.x)
    ensures |Emit(s)| == |Optional('-', s.clr)| + |Optional('+', s.add)| + |Optional('X', s.x)|
  {
  }

  // The compressed array means the same as the array did before, for every mode.
  lemma CompressedArrayMeansTheSame(was: seq<BitCmd>, rest: seq<BitCmd>, omode: Mode)
    requires Terminated(was)
    ensures Run(Compress(was) + rest, omode, omode) == Run(was, omode, omode)
  {
    hide Squeeze, Run, Terminated;
    SqueezeKeepsTerminator(NOTHING, was);
    RunStopsAtTerminator(Compress(was), rest, omode, omode);
    CompressPreservesMeaning(was, omode);
  }
}
