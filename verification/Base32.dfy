// base32hex encoding of hex strings and decoding back, as functions on whole strings.
module Base32 {
  import opened CTypes
  import opened Base32Group

  datatype Error =
    | OddLength
    | NotHexadecimal
    | NotMultipleOfEight
    | PaddingInside(index: int)
    | InvalidCharacter(position: nat, c: Byte)
    | InvalidPadding(pad: nat)

  datatype Result = Ok(text: seq<Byte>) | Err(error: Error)

  // Hexadecimal digits, either case; the decoder writes lower case.
  predicate IsHex(c: Byte) {
    48 <= c <= 57 || 97 <= c <= 102 || 65 <= c <= 70
  }

  function HexValue(c: Byte): Byte {
    if 48 <= c <= 57 then c - 48
    else if 97 <= c <= 102 then c - 97 + 10
    else if 65 <= c <= 70 then c - 65 + 10
    else 0
  }

  function HexDigit(v: Byte): Byte
    requires v < 16
  {
    if v < 10 then 48 + v else 87 + v
  }

  function HexByte(high: Byte, low: Byte): Byte {
    (HexValue(high) << 4) | HexValue(low)
  }

  function FromHex(h: seq<Byte>): (b: seq<Byte>)
    ensures |b| == |h| / 2
  {
    if |h| < 2 then [] else [HexByte(h[0], h[1])] + FromHex(h[2..])
  }

  function HighDigit(b: Byte): Byte {
    HexDigit(b >> 4)
  }

  function LowDigit(b: Byte): Byte {
    HexDigit(b & 0x0f)
  }

  function ToHex(b: seq<Byte>): (h: seq<Byte>)
    ensures |h| == 2 * |b|
  {
    if b == [] then [] else [HighDigit(b[0]), LowDigit(b[0])] + ToHex(b[1..])
  }

  // A last group of fewer than five bytes is completed with zeros.
  function ZeroPadded(g: seq<Byte>): Five
    requires 1 <= |g| <= 5
  {
    Five(g[0], if |g| > 1 then g[1] else 0, if |g| > 2 then g[2] else 0,
         if |g| > 3 then g[3] else 0, if |g| > 4 then g[4] else 0)
  }

  // As many five-bit values as n bytes need.
  function SymbolCount(n: nat): nat
    requires 1 <= n <= 5
  {
    (8 * n + 4) / 5
  }

  function SymbolsOf(x: seq<Byte>): (t: seq<Byte>)
    requires forall i :: 0 <= i < |x| ==> x[i] < 32
    ensures |t| == |x| && forall i :: 0 <= i < |x| ==> t[i] == Symbol(x[i])
  {
    seq(|x|, i requires 0 <= i < |x| => Symbol(x[i]))
  }

  function Padding(n: nat): (p: seq<Byte>)
    ensures |p| == n && forall i :: 0 <= i < n ==> p[i] == PAD
  {
    seq(n, _ => PAD)
  }

  function EncodeGroup(g: seq<Byte>): (t: seq<Byte>)
    requires 1 <= |g| <= 5
    ensures |t| == 8
  {
    SplitIsFiveBits(ZeroPadded(g));
    SymbolsOf(ListOf(Split(ZeroPadded(g))))[..SymbolCount(|g|)] + Padding(8 - SymbolCount(|g|))
  }

  function EncodeBytes(b: seq<Byte>): (t: seq<Byte>)
    ensures |t| == (|b| + 4) / 5 * 8
  {
    if b == [] then []
    else if |b| <= 5 then EncodeGroup(b)
    else EncodeGroup(b[..5]) + EncodeBytes(b[5..])
  }

  // Encodes the bytes a hex string denotes.
  function Encode(h: seq<Byte>): Result {
    if |h| % 2 == 1 then Err(OddLength)
    else if exists i :: 0 <= i < |h| && !IsHex(h[i]) then Err(NotHexadecimal)
    else Ok(EncodeBytes(FromHex(h)))
  }

  // The decoder's pass over the characters: their values, and the number of pad characters.
  datatype Scanned = Values(x: seq<Byte>, pad: nat) | Failed(error: Error)

  function Scan(s: seq<Byte>, k: nat, x: seq<Byte>, pad: nat): (r: Scanned)
    requires k <= |s|
    ensures r.Values? ==> |r.x| == |x| + |s| - k && pad <= r.pad <= pad + |s| - k
    decreases |s| - k
  {
    if k == |s| then Values(x, pad)
    else if s[k] == PAD then Scan(s, k + 1, x + [0], pad + 1)
    else if pad > 0 then Failed(PaddingInside(k % 8 - 1))
    else if !InAlphabet(s[k]) then Failed(InvalidCharacter(k % 8, s[k]))
    else Scan(s, k + 1, x + [ValueOf(s[k])], pad)
  }

  function EightOf(x: seq<Byte>): Eight
    requires |x| >= 8
  {
    Eight(x[0], x[1], x[2], x[3], x[4], x[5], x[6], x[7])
  }

  function BytesOf(f: Five): seq<Byte> {
    [f.b0, f.b1, f.b2, f.b3, f.b4]
  }

  function Bytes(x: seq<Byte>): (b: seq<Byte>)
    requires |x| % 8 == 0
    ensures |b| == |x| / 8 * 5
  {
    if x == [] then [] else BytesOf(Join(EightOf(x))) + Bytes(x[8..])
  }

  predicate ValidPad(pad: nat) {
    pad in {0, 1, 3, 4, 6}
  }

  // How many bytes of the last group the padding takes away.
  function Dropped(pad: nat): nat {
    match pad
    case 1 => 1
    case 3 => 2
    case 4 => 3
    case 6 => 4
    case _ => 0
  }

  function Decode(s: seq<Byte>): Result {
    if |s| % 8 != 0 then Err(NotMultipleOfEight)
    else
      match Scan(s, 0, [], 0)
      case Failed(e) => Err(e)
      case Values(x, pad) =>
        if !ValidPad(pad) then Err(InvalidPadding(pad))
        else Ok(ToHex(Bytes(x)[..|Bytes(x)| - Dropped(pad)]))
  }
}
