// Octal modes, the absolute branch of setmode (src/pextlib1.0/setmode.c).
module ModeOctal {
  import opened ModeCommands
  import opened ModeCompiler

  const ALL_BITS: Mode := 0x0FFF  // STANDARD_BITS | S_ISTXT

  predicate IsDecimal(c: char) { '0' <= c <= '9' }

  predicate IsOctal(c: char) { '0' <= c <= '7' }

  // strtol with base 8: the number that the leading octal digits spell, after the digits that came before.
  function OctalFrom(p: string, before: nat): nat {
    if p == [] || !IsOctal(p[0]) then before else OctalFrom(p[1..], 8 * before + (p[0] as nat - '0' as nat))
  }

  function Octal(p: string): nat { OctalFrom(p, 0) }

  // The first digit is not looked at again once it is known to be decimal.
  predicate OctalLanguage(p: string) {
    && p != [] && IsDecimal(p[0])
    && (forall i :: 1 <= i < |p| ==> IsOctal(p[i]))
    && Octal(p) <= 0x0FFF
  }

  function DigitBits(d: nat): Mode {
    (if d % 2 == 1 then 1 else 0) | (if d / 2 % 2 == 1 then 2 else 0) | (if d / 4 % 2 == 1 then 4 else 0)
  }

  // The number as bits of a mode.
  function BitsOf(v: nat): Mode {
    if v == 0 then 0 else (BitsOf(v / 8) << 3) | DigitBits(v % 8)
  }

  // The commands of an octal mode.
  function OctalCmds(v: nat): seq<BitCmd> {
    [BitCmd('-', 0, ALL_BITS), BitCmd('+', 0, BitsOf(v))]
  }

  lemma BitsFit(v: nat)
    requires v <= 0x0FFF
    ensures Both(ALL_BITS, BitsOf(v)) == BitsOf(v)
  {
    hide BitsOf;
    DigitFits(v / 8 / 8 / 8, 0);
    DigitFits(v / 8 / 8, 0x8);
    DigitFits(v / 8, 0x40);
    DigitFits(v, 0x200);
    Masked(BitsOf(v));
  }

  lemma Masked(b: Mode)
    requires b < 0x1000
    ensures Both(ALL_BITS, b) == b
  {
  }

  lemma DigitFits(v: nat, limit: Mode)
    requires limit == 0 ==> v < 8
    requires limit <= 0x200 && (limit > 0 ==> BitsOf(v / 8) < limit)
    ensures BitsOf(v) < if limit == 0 then 8 else limit << 3
  {
    assert DigitBits(v % 8) < 8;
    if limit > 0 {
      ShiftFits(BitsOf(v / 8), DigitBits(v % 8), limit);
    }
  }

  lemma ShiftFits(x: Mode, d: Mode, limit: Mode)
    requires x < limit <= 0x200 && d < 8
    ensures (x << 3) | d < limit << 3
  {
  }

  // Running them gives the octal mode, whatever mode it starts from; then whatever lies behind them is run as well.
  lemma OctalModeMeans(v: nat, rest: seq<BitCmd>, omode: Mode, m: Mode)
    ensures Run(OctalCmds(v) + rest, omode, m) == Run(rest, omode, Plus(Minus(m, ALL_BITS), BitsOf(v)))
  {
    hide BitsOf, Plus, Minus;
    var minus, plus := BitCmd('-', 0, ALL_BITS), BitCmd('+', 0, BitsOf(v));
    assert OctalCmds(v) + rest == [minus] + ([plus] + rest);
    assert ([minus] + ([plus] + rest))[1..] == [plus] + rest;
    assert ([plus] + rest)[1..] == rest;
  }

  // No terminator is written: a command that happens to lie behind them changes the mode.
  lemma OctalModeIsNotTerminated(v: nat, omode: Mode) returns (behind: BitCmd)
    ensures Run(OctalCmds(v) + [behind], omode, omode) != Run(OctalCmds(v), omode, omode)
  {
    var m := Run(OctalCmds(v), omode, omode);
    behind := BitCmd(if m & 1 == 1 then '-' else '+', 0, 1);
    assert OctalCmds(v) + [] == OctalCmds(v);
    OctalModeMeans(v, [], omode, omode);
    OctalModeMeans(v, [behind], omode, omode);
    RunOne(behind, omode, m);
    LastBit(m);
  }

  lemma RunOne(c: BitCmd, omode: Mode, m: Mode)
    requires Mergeable(c) && c.cmd != 'X'
    ensures Run([c], omode, m) == if c.cmd == '+' then Plus(m, c.bits) else Minus(m, c.bits)
  {
    hide Plus, Minus;
    assert [c][1..] == [];
  }

  lemma LastBit(m: Mode)
    ensures m & 1 == 1 ==> Minus(m, 1) != m
    ensures m & 1 != 1 ==> Plus(m, 1) != m
  {
  }

  // Digits 8 and 9 are accepted in front, and count as nothing: the number ends there.
  lemma EightIsAccepted(p: string)
    requires p != [] && IsDecimal(p[0]) && !IsOctal(p[0])
    ensures OctalLanguage(p) <==> forall i :: 1 <= i < |p| ==> IsOctal(p[i])
    ensures Octal(p) == 0
  {
  }
}
