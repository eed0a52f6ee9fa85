/** The machine representations shared by the kernel's on-disk and in-memory structures:
    bytes, 32-bit two's-complement integers, and little-endian words. */
module Bytes {
  type byte = x: int | 0 <= x < 0x100
  type int32 = x: int | -0x8000_0000 <= x < 0x8000_0000

  type uint32 = x: int | 0 <= x < 0x1_0000_0000

  /** The bit pattern of a C `int`, read as `unsigned int`. */
  function ToUnsigned(x: int32): (u: int)
    ensures 0 <= u < 0x1_0000_0000
  {
    if x < 0 then x + 0x1_0000_0000 else x
  }

  /** A C conversion to `int`: the value modulo 2^32, in two's complement. */
  function Wrap(x: int): (r: int32)
    ensures exists k: int :: x == r + k * 0x1_0000_0000
  {
    var u := x % 0x1_0000_0000;
    var r := if u >= 0x8000_0000 then u - 0x1_0000_0000 else u;
    assert x == r + (x / 0x1_0000_0000 + if u >= 0x8000_0000 then 1 else 0) * 0x1_0000_0000;
    r
  }

  function Abs(x: int): nat {
    if x < 0 then -x else x
  }

  function Pow2(n: nat): (p: nat)
    ensures p > 0
  {
    if n == 0 then 1 else 2 * Pow2(n - 1)
  }

  /** C division by a positive constant truncates toward zero. */
  function TruncDiv(x: int, d: int): int
    requires d > 0
  {
    if x >= 0 then x / d else -((-x) / d)
  }

  /** The macro divRoundUp(n, s) for int operands: C's remainder of a negative n is never positive. */
  function DivRoundUp(n: int, s: int): int
    requires s > 0
  {
    if n >= 0 then n / s + (if n % s > 0 then 1 else 0) else TruncDiv(n, s)
  }

  function EncodeWord(x: int32): (b: seq<byte>)
    ensures |b| == 4
  {
    var u := ToUnsigned(x);
    [u % 0x100, u / 0x100 % 0x100, u / 0x1_0000 % 0x100, u / 0x100_0000]
  }

  function DecodeWord(b: seq<byte>): (x: int32)
    requires |b| == 4
  {
    var u := (b[0] as int) + 0x100 * (b[1] as int) + 0x1_0000 * (b[2] as int) + 0x100_0000 * (b[3] as int);
    if u >= 0x8000_0000 then u - 0x1_0000_0000 else u
  }

  lemma WordRoundTrip(x: int32)
    ensures DecodeWord(EncodeWord(x)) == x
  {
    var u := ToUnsigned(x);
    assert u / 0x100 == 0x100 * (u / 0x1_0000) + u / 0x100 % 0x100;
    assert u / 0x1_0000 == 0x100 * (u / 0x100_0000) + u / 0x1_0000 % 0x100;
  }

  function EncodeWords(ws: seq<int32>): (b: seq<byte>)
    ensures |b| == 4 * |ws|
  {
    seq(4 * |ws|, p requires 0 <= p < 4 * |ws| => EncodeWord(ws[p / 4])[p % 4])
  }

  function DecodeWords(b: seq<byte>): (ws: seq<int32>)
    requires |b| % 4 == 0
    ensures |ws| == |b| / 4
  {
    seq(|b| / 4, k requires 0 <= k < |b| / 4 => DecodeWord(b[4 * k..4 * k + 4]))
  }

  lemma WordsRoundTrip(ws: seq<int32>)
    ensures DecodeWords(EncodeWords(ws)) == ws
  {
    hide EncodeWord, DecodeWord;
    var b := EncodeWords(ws);
    forall k | 0 <= k < |ws|
      ensures DecodeWords(b)[k] == ws[k]
    {
      assert b[4 * k..4 * k + 4] == EncodeWord(ws[k]);
      WordRoundTrip(ws[k]);
    }
  }
}
