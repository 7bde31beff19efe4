// The encoding and decoding commands: loops over byte buffers, with a pointer into the output.
module Base32Codec {
  import opened CTypes
  import opened Base32Group
  import opened Base32
  import opened Base32RoundTrip

  // *(at++) = c
  method Put(out: array<Byte>, at: nat, c: Byte) returns (next: nat)
    requires at < out.Length
    modifies out
    ensures next == at + 1 && out[..next] == old(out[..at]) + [c]
  {
    out[at] := c;
    next := at + 1;
  }

  method PutFour(out: array<Byte>, at: nat, t0: Byte, t1: Byte, t2: Byte, t3: Byte) returns (next: nat)
    requires at + 4 <= out.Length
    modifies out
    ensures next == at + 4 && out[..next] == old(out[..at]) + [t0, t1, t2, t3]
  {
    next := Put(out, at, t0);
    next := Put(out, next, t1);
    next := Put(out, next, t2);
    next := Put(out, next, t3);
  }

  // A group of eight characters goes to the output pointer.
  method PutEight(out: array<Byte>, at: nat, t: seq<Byte>) returns (next: nat)
    requires |t| == 8 && at + 8 <= out.Length
    modifies out
    ensures next == at + 8 && out[..next] == old(out[..at]) + t
  {
    next := PutFour(out, at, t[0], t[1], t[2], t[3]);
    next := PutFour(out, next, t[4], t[5], t[6], t[7]);
    assert t == [t[0], t[1], t[2], t[3]] + [t[4], t[5], t[6], t[7]];
  }

  lemma FullGroup(b: seq<Byte>)
    requires |b| == 5
    ensures var e := Split(Five(b[0], b[1], b[2], b[3], b[4]));
      FiveBits(e) && EncodeGroup(b) ==
        [Symbol(e.x0), Symbol(e.x1), Symbol(e.x2), Symbol(e.x3), Symbol(e.x4), Symbol(e.x5), Symbol(e.x6), Symbol(e.x7)]
  {
    hide Split, Symbol;
    JoinSplit(Five(b[0], b[1], b[2], b[3], b[4]));
  }

  // The cases of the switch: where bytes are missing the code leaves their shifts out.
  lemma GroupOfOne(b0: Byte)
    ensures b0 >> 3 < 32 && 0x1f & (b0 << 2) < 32
    ensures EncodeGroup([b0]) == [Symbol(b0 >> 3), Symbol(0x1f & (b0 << 2)), PAD, PAD, PAD, PAD, PAD, PAD]
  {
    OneSplit(b0);
    hide Split, Symbol;
  }

  lemma OneSplit(b0: Byte)
    ensures b0 >> 3 < 32 && 0x1f & (b0 << 2) < 32
    ensures Split(Five(b0, 0, 0, 0, 0)).x0 == b0 >> 3 && Split(Five(b0, 0, 0, 0, 0)).x1 == 0x1f & (b0 << 2)
  {
  }

  lemma GroupOfTwo(b0: Byte, b1: Byte)
    ensures b0 >> 3 < 32 && 0x1f & ((b0 << 2) | (b1 >> 6)) < 32 && 0x1f & (b1 >> 1) < 32 && 0x1f & (b1 << 4) < 32
    ensures EncodeGroup([b0, b1]) ==
      [Symbol(b0 >> 3), Symbol(0x1f & ((b0 << 2) | (b1 >> 6))), Symbol(0x1f & (b1 >> 1)), Symbol(0x1f & (b1 << 4)),
       PAD, PAD, PAD, PAD]
  {
    JoinSplit(Five(b0, b1, 0, 0, 0));
    TwoSplit(b0, b1);
    hide Symbol;
  }

  lemma TwoSplit(b0: Byte, b1: Byte)
    ensures 0x1f & (b1 << 4) < 32 && Split(Five(b0, b1, 0, 0, 0)).x3 == 0x1f & (b1 << 4)
  {
  }

  lemma GroupOfThree(b0: Byte, b1: Byte, b2: Byte)
    ensures b0 >> 3 < 32 && 0x1f & ((b0 << 2) | (b1 >> 6)) < 32 && 0x1f & (b1 >> 1) < 32
    ensures 0x1f & ((b1 << 4) | (b2 >> 4)) < 32 && 0x1f & (b2 << 1) < 32
    ensures EncodeGroup([b0, b1, b2]) ==
      [Symbol(b0 >> 3), Symbol(0x1f & ((b0 << 2) | (b1 >> 6))), Symbol(0x1f & (b1 >> 1)),
       Symbol(0x1f & ((b1 << 4) | (b2 >> 4))), Symbol(0x1f & (b2 << 1)), PAD, PAD, PAD]
  {
    JoinSplit(Five(b0, b1, b2, 0, 0));
    ThreeSplit(b0, b1, b2);
    hide Symbol;
  }

  lemma ThreeSplit(b0: Byte, b1: Byte, b2: Byte)
    ensures 0x1f & (b2 << 1) < 32 && Split(Five(b0, b1, b2, 0, 0)).x4 == 0x1f & (b2 << 1)
  {
  }

  lemma GroupOfFour(b0: Byte, b1: Byte, b2: Byte, b3: Byte)
    ensures b0 >> 3 < 32 && 0x1f & ((b0 << 2) | (b1 >> 6)) < 32 && 0x1f & (b1 >> 1) < 32
    ensures 0x1f & ((b1 << 4) | (b2 >> 4)) < 32 && 0x1f & ((b2 << 1) | (b3 >> 7)) < 32
    ensures 0x1f & (b3 >> 2) < 32 && 0x1f & (b3 << 3) < 32
    ensures EncodeGroup([b0, b1, b2, b3]) ==
      [Symbol(b0 >> 3), Symbol(0x1f & ((b0 << 2) | (b1 >> 6))), Symbol(0x1f & (b1 >> 1)),
       Symbol(0x1f & ((b1 << 4) | (b2 >> 4))), Symbol(0x1f & ((b2 << 1) | (b3 >> 7))), Symbol(0x1f & (b3 >> 2)),
       Symbol(0x1f & (b3 << 3)), PAD]
  {
    JoinSplit(Five(b0, b1, b2, b3, 0));
    FourSplit(b0, b1, b2, b3);
    hide Symbol;
  }

  lemma FourSplit(b0: Byte, b1: Byte, b2: Byte, b3: Byte)
    ensures 0x1f & (b3 << 3) < 32 && Split(Five(b0, b1, b2, b3, 0)).x6 == 0x1f & (b3 << 3)
  {
  }

  method HexToBytes(digest: seq<Byte>) returns (buf: array<Byte>)
    requires |digest| % 2 == 0
    ensures fresh(buf) && buf[..] == FromHex(digest)
  {
    hide HexByte, FromHex;
    buf := new Byte[|digest| / 2];
    assert digest[0..] == digest;
    for i := 0 to buf.Length
      invariant FromHex(digest) == buf[..i] + FromHex(digest[2 * i..])
    {
      FromHexStep(digest[2 * i..]);
      assert digest[2 * i..][2..] == digest[2 * i + 2..];
      buf[i] := HexByte(digest[i + i], digest[i + i + 1]);
    }
    assert buf[..buf.Length] == buf[..];
    FromHexStep(digest[2 * buf.Length..]);
  }

  lemma FromHexStep(h: seq<Byte>)
    ensures |h| < 2 ==> FromHex(h) == []
    ensures |h| >= 2 ==> FromHex(h) == [HexByte(h[0], h[1])] + FromHex(h[2..])
  {
  }

  // The loop body for five bytes.
  method PutFullGroup(buf: array<Byte>, p: nat, out: array<Byte>, at: nat) returns (next: nat)
    requires p + 5 <= buf.Length && at + 8 <= out.Length && buf != out
    modifies out
    ensures next == at + 8 && out[..next] == old(out[..at]) + EncodeGroup(buf[p..p + 5])
  {
    hide Split, Symbol, EncodeGroup;
    var e := Split(Five(buf[p], buf[p + 1], buf[p + 2], buf[p + 3], buf[p + 4]));
    FullGroup(buf[p..p + 5]);
    next := PutEight(out, at, [Symbol(e.x0), Symbol(e.x1), Symbol(e.x2), Symbol(e.x3),
                               Symbol(e.x4), Symbol(e.x5), Symbol(e.x6), Symbol(e.x7)]);
  }

  // The switch over one to four remaining bytes.
  method PutPartialGroup(buf: array<Byte>, p: nat, out: array<Byte>, at: nat) returns (next: nat)
    requires p < buf.Length < p + 5 && at + 8 <= out.Length && buf != out
    modifies out
    ensures next == at + 8 && out[..next] == old(out[..at]) + EncodeGroup(buf[p..])
  {
    hide Symbol, EncodeGroup;
    var b0 := buf[p];
    var t;
    match buf.Length - p {
      case 1 =>
        GroupOfOne(b0);
        assert buf[p..] == [b0];
        t := [Symbol(b0 >> 3), Symbol(0x1f & (b0 << 2)), PAD, PAD, PAD, PAD, PAD, PAD];
      case 2 =>
        var b1 := buf[p + 1];
        GroupOfTwo(b0, b1);
        assert buf[p..] == [b0, b1];
        t := [Symbol(b0 >> 3), Symbol(0x1f & ((b0 << 2) | (b1 >> 6))), Symbol(0x1f & (b1 >> 1)),
              Symbol(0x1f & (b1 << 4)), PAD, PAD, PAD, PAD];
      case 3 =>
        var b1, b2 := buf[p + 1], buf[p + 2];
        GroupOfThree(b0, b1, b2);
        assert buf[p..] == [b0, b1, b2];
        t := [Symbol(b0 >> 3), Symbol(0x1f & ((b0 << 2) | (b1 >> 6))), Symbol(0x1f & (b1 >> 1)),
              Symbol(0x1f & ((b1 << 4) | (b2 >> 4))), Symbol(0x1f & (b2 << 1)), PAD, PAD, PAD];
      case _ =>
        var b1, b2, b3 := buf[p + 1], buf[p + 2], buf[p + 3];
        GroupOfFour(b0, b1, b2, b3);
        assert buf[p..] == [b0, b1, b2, b3];
        t := [Symbol(b0 >> 3), Symbol(0x1f & ((b0 << 2) | (b1 >> 6))), Symbol(0x1f & (b1 >> 1)),
              Symbol(0x1f & ((b1 << 4) | (b2 >> 4))), Symbol(0x1f & ((b2 << 1) | (b3 >> 7))),
              Symbol(0x1f & (b3 >> 2)), Symbol(0x1f & (b3 << 3)), PAD];
    }
    next := PutEight(out, at, t);
  }

  method EncodeBuffer(buf: array<Byte>) returns (t: seq<Byte>)
    ensures t == EncodeBytes(buf[..])
  {
    hide EncodeGroup, EncodeBytes;
    var nbuf, p := buf.Length, 0;
    var out := new Byte[(nbuf + 4) / 5 * 8];
    var at := 0;
    assert buf[0..] == buf[..];
    while nbuf >= 5
      invariant 0 <= nbuf && 0 <= p && p + nbuf == buf.Length && at == p / 5 * 8 && p % 5 == 0
      invariant EncodeBytes(buf[..]) == out[..at] + EncodeBytes(buf[p..])
    {
      GroupSplitsOff(buf[p..]);
      assert buf[p..][..5] == buf[p..p + 5] && buf[p..][5..] == buf[p + 5..];
      at := PutFullGroup(buf, p, out, at);
      nbuf := nbuf - 5;
      p := p + 5;
    }
    EncodeBytesSteps(buf[p..]);
    if nbuf > 0 {
      at := PutPartialGroup(buf, p, out, at);
    }
    t := out[..];
    assert out[..at] == out[..];
  }

  lemma GroupSplitsOff(b: seq<Byte>)
    requires |b| >= 5
    ensures EncodeBytes(b) == EncodeGroup(b[..5]) + EncodeBytes(b[5..])
  {
    hide EncodeGroup;
    if |b| == 5 {
      assert b[..5] == b && b[5..] == [];
    }
  }

  // Base32EncodeCmd
  method EncodeCommand(digest: seq<Byte>) returns (r: Result)
    ensures r == Encode(digest)
  {
    if |digest| % 2 == 1 {
      return Err(OddLength);
    }
    for i := 0 to |digest|
      invariant forall k :: 0 <= k < i ==> IsHex(digest[k])
    {
      if !IsHex(digest[i]) {
        return Err(NotHexadecimal);
      }
    }
    var buf := HexToBytes(digest);
    var t := EncodeBuffer(buf);
    r := Ok(t);
  }

  lemma {:induction false} BytesOfMore(x: seq<Byte>, y: seq<Byte>)
    requires |x| % 8 == 0 && |y| == 8
    ensures Bytes(x + y) == Bytes(x) + BytesOf(Join(EightOf(y)))
  {
    hide Join, EightOf, BytesOf;
    if x == [] {
      assert x + y == y && y[8..] == [];
    } else {
      BytesOfMore(x[8..], y);
      SameFirstEight(x, y);
      assert (x + y)[8..] == x[8..] + y;
    }
  }

  lemma SameFirstEight(x: seq<Byte>, y: seq<Byte>)
    requires |x| >= 8
    ensures EightOf(x + y) == EightOf(x)
  {
  }

  // The inner loop: eight characters become values, counting the padding; an offending character ends it.
  method ScanGroup(s: seq<Byte>, i: nat, x: array<Byte>, padBefore: nat, ghost before: seq<Byte>)
    returns (pad: nat, error: Scanned)
    requires i + 8 <= |s| && i % 8 == 0 && x.Length == 8
    modifies x
    ensures error.Failed? ==> Scan(s, i, before, padBefore) == error
    ensures error.Values? ==> Scan(s, i, before, padBefore) == Scan(s, i + 8, before + x[..], pad)
  {
    hide InAlphabet;
    pad, error := padBefore, Values([], 0);
    assert before + x[..0] == before;
    for j := 0 to 8
      invariant error.Values? && Scan(s, i, before, padBefore) == Scan(s, i + j, before + x[..j], pad)
    {
      var a := s[i + j];
      if a == PAD {
        x[j] := 0;
        pad := pad + 1;
        AppendOne(before, x, j);
        continue;
      } else if pad > 0 {
        error := Failed(PaddingInside(j - 1));
        return;
      }
      if !InAlphabet(a) {
        error := Failed(InvalidCharacter(j, a));
        return;
      }
      x[j] := ValueOf(a);
      AppendOne(before, x, j);
    }
    assert x[..8] == x[..];
  }

  lemma AppendOne(before: seq<Byte>, x: array<Byte>, j: nat)
    requires j < x.Length
    ensures before + x[..j + 1] == before + x[..j] + [x[j]]
  {
  }

  method PutFive(out: array<Byte>, at: nat, x: array<Byte>) returns (next: nat)
    requires at + 5 <= out.Length && x.Length == 8 && out != x
    modifies out
    ensures next == at + 5 && out[..next] == old(out[..at]) + BytesOf(Join(EightOf(x[..])))
  {
    hide Joined0, Joined1, Joined2, Joined3, Joined4;
    next := Put(out, at, Joined0(x[0], x[1]));
    next := Put(out, next, Joined1(x[1], x[2], x[3]));
    next := Put(out, next, Joined2(x[3], x[4]));
    next := Put(out, next, Joined3(x[4], x[5], x[6]));
    next := Put(out, next, Joined4(x[6], x[7]));
  }

  method BytesToHex(out: array<Byte>, n: nat) returns (digest: seq<Byte>)
    requires n <= out.Length
    ensures digest == ToHex(out[..n])
  {
    hide HighDigit, LowDigit, ToHex;
    var buffer := new Byte[2 * n];
    for i := 0 to n
      invariant ToHex(out[..n]) == buffer[..2 * i] + ToHex(out[i..n])
    {
      HexStep(out[i..n]);
      assert out[i..n][1..] == out[i + 1..n];
      buffer[i + i] := HighDigit(out[i]);
      buffer[i + i + 1] := LowDigit(out[i]);
    }
    digest := buffer[..];
    assert buffer[..2 * n] == buffer[..];
    HexStep(out[n..n]);
  }

  lemma HexStep(b: seq<Byte>)
    ensures b == [] ==> ToHex(b) == []
    ensures b != [] ==> ToHex(b) == [HighDigit(b[0]), LowDigit(b[0])] + ToHex(b[1..])
  {
  }

  // Base32DecodeCmd
  method DecodeCommand(s: seq<Byte>) returns (r: Result)
    ensures r == Decode(s)
  {
    hide Bytes, BytesOf, Join;
    if |s| % 8 != 0 {
      return Err(NotMultipleOfEight);
    }
    var out := new Byte[|s| / 8 * 5];
    var x := new Byte[8];
    var pad, i, at := 0, 0, 0;
    ghost var values: seq<Byte> := [];
    NoBytes();
    while i < |s|
      invariant 0 <= i <= |s| && i % 8 == 0 && |values| == i && at == i / 8 * 5
      invariant Scan(s, 0, [], 0) == Scan(s, i, values, pad)
      invariant out[..at] == Bytes(values)
    {
      var error;
      pad, error := ScanGroup(s, i, x, pad, values);
      if error.Failed? {
        return Err(error.error);
      }
      at := PutFive(out, at, x);
      BytesOfMore(values, x[..]);
      values := values + x[..];
      i := i + 8;
    }
    if pad > 0 {
      if pad == 1 {
        at := at - 1;
      } else if pad == 3 {
        at := at - 2;
      } else if pad == 4 {
        at := at - 3;
      } else if pad == 6 {
        at := at - 4;
      } else {
        return Err(InvalidPadding(pad));
      }
    }
    assert out[..at] == Bytes(values)[..at];
    var digest := BytesToHex(out, at);
    r := Ok(digest);
  }
}
