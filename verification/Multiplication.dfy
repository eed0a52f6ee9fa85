/** The simulator's 32 by 32 to 64 bit multiplication: shift and add over two's-complement words. */
module Multiplication {
  import opened Bytes

  /** A double word, as an unsigned and as a signed number. */
  function DoubleWord(hi: uint32, lo: uint32): (v: nat) {
    hi * 0x1_0000_0000 + lo
  }

  function SignedDoubleWord(hi: int32, lo: int32): int {
    hi * 0x1_0000_0000 + ToUnsigned(lo)
  }

  /** A product, kept folded so that the steps below are linear. */
  function Times(x: int, y: int): int {
    x * y
  }

  lemma TimesAdd(x: int, y: int, b: int)
    ensures Times(x + y, b) == Times(x, b) + Times(y, b)
  {
  }

  lemma TimesDouble(x: int, b: int)
    ensures Times(2 * x, b) == 2 * Times(x, b)
  {
  }

  lemma TimesHalf(q: nat, p: int)
    ensures Times(q, p) == Times(q / 2, 2 * p) + (if q % 2 == 1 then p else 0)
  {
    var half := q / 2;
    assert q * p == half * (2 * p) + (q - 2 * half) * p;
    assert q - 2 * half == 0 || q - 2 * half == 1;
  }

  lemma TimesMonotone(x: nat, y: nat, b: nat)
    requires x <= y
    ensures Times(x, b) <= Times(y, b)
  {
  }

  lemma TimesUnits(x: int)
    ensures Times(1, x) == x && Times(x, 1) == x && Times(0, x) == 0
  {
  }

  lemma {:induction false} Pow2AtMost(i: nat, j: nat)
    requires i <= j
    ensures Pow2(i) <= Pow2(j)
  {
    if i < j {
      Pow2AtMost(i, j - 1);
    }
  }

  lemma Pow2Word()
    ensures Pow2(32) == 0x1_0000_0000
  {
    assert Pow2(8) == 256;
    assert Pow2(16) == 256 * Pow2(8);
    assert Pow2(24) == 256 * Pow2(16);
    assert Pow2(32) == 256 * Pow2(24);
  }

  /** What the loop keeps: u is the multiplier, q its bits still to come, of which a is the arithmetic shift;
      the rest of u has been multiplied by b into acc, and sh is b moved i places up. */
  ghost predicate Partial(u: nat, b: nat, i: nat, negative: bool, a: int, q: nat, rem: nat, acc: nat, sh: nat) {
    && i <= 32
    && u == Times(q, Pow2(i)) + rem && rem < Pow2(i) && q < Pow2(32 - i)
    && a == q - (if negative then Pow2(32 - i) else 0)
    && acc == Times(rem, b) && sh == Times(Pow2(i), b)
  }

  /** Nothing overflows a double word on the way, and a's lowest bit is q's. */
  lemma PartialBounds(u: nat, b: uint32, i: nat, negative: bool, a: int, q: nat, rem: nat, acc: nat, sh: nat)
    requires Partial(u, b, i, negative, a, q, rem, acc, sh) && i < 32
    ensures acc + sh < 0x1_0000_0000_0000_0000 && 2 * sh < 0x1_0000_0000_0000_0000
    ensures a % 2 == q % 2 && (negative ==> a < 0)
  {
    hide Times;
    var p := Pow2(i);
    assert Pow2(i + 1) == 2 * p && Pow2(32 - i) == 2 * Pow2(31 - i);
    Pow2AtMost(i + 1, 32);
    Pow2Word();
    TimesAdd(rem, p, b);
    TimesDouble(p, b);
    TimesMonotone(rem + p, 2 * p, b);
    TimesMonotone(2 * p, 0x1_0000_0000, b);
    assert Times(0x1_0000_0000, b) < 0x1_0000_0000_0000_0000 by { WordTimes(b); }
  }

  lemma WordTimes(b: uint32)
    ensures Times(0x1_0000_0000, b) == 0x1_0000_0000 * b
  {
  }

  /** One turn of the loop: the lowest bit of what is left decides whether sh is added. */
  lemma PartialStep(u: nat, b: nat, i: nat, negative: bool, a: int, q: nat, rem: nat, acc: nat, sh: nat)
    requires Partial(u, b, i, negative, a, q, rem, acc, sh) && i < 32
    ensures q % 2 == 0 ==> Partial(u, b, i + 1, negative, a / 2, q / 2, rem, acc, 2 * sh)
    ensures q % 2 == 1 ==> Partial(u, b, i + 1, negative, a / 2, q / 2, rem + Pow2(i), acc + sh, 2 * sh)
    ensures q == 1 ==> acc + sh == Times(u, b)
  {
    hide Times, Pow2;
    var p := Pow2(i);
    Powers(i);
    TimesHalf(q, p);
    TimesAdd(rem, p, b);
    TimesDouble(p, b);
    TimesUnits(p);
  }

  lemma Powers(i: nat)
    requires i < 32
    ensures Pow2(32 - i) == 2 * Pow2(31 - i) && Pow2(i + 1) == 2 * Pow2(i)
  {
  }

  lemma PartialEnd(u: nat, b: nat, negative: bool, a: int, q: nat, rem: nat, acc: nat, sh: nat)
    requires Partial(u, b, 32, negative, a, q, rem, acc, sh)
    ensures acc == Times(u, b)
  {
    hide Times;
    assert Pow2(0) == 1;
    TimesUnits(Pow2(32));
  }

  /** The hand-made carry: adding two double words word by word. */
  lemma AddDouble(hi: uint32, lo: uint32, bHi: uint32, bLo: uint32)
    requires DoubleWord(hi, lo) + DoubleWord(bHi, bLo) < 0x1_0000_0000_0000_0000
    ensures var lo2 := (lo + bLo) % 0x1_0000_0000;
            var hi2 := (if lo2 < bLo then hi + 1 else hi) + bHi;
            hi2 < 0x1_0000_0000 && DoubleWord(hi2, lo2) == DoubleWord(hi, lo) + DoubleWord(bHi, bLo)
  {
  }

  lemma DoubleUp(bHi: uint32, bLo: uint32)
    requires 2 * DoubleWord(bHi, bLo) < 0x1_0000_0000_0000_0000
    ensures var h := 2 * bHi % 0x1_0000_0000;
            var h2 := if bLo >= 0x8000_0000 then h + 1 else h;
            h2 < 0x1_0000_0000 && DoubleWord(h2, 2 * bLo % 0x1_0000_0000) == 2 * DoubleWord(bHi, bLo)
  {
  }

  lemma MagnitudeBound(x: nat, y: nat)
    requires x <= 0x8000_0000 && y <= 0x8000_0000
    ensures 0 <= Times(x, y) <= 0x4000_0000_0000_0000
    ensures x > 0 && y > 0 ==> Times(x, y) > 0
  {
    TimesMonotone(x, 0x8000_0000, y);
  }

  lemma Signs(a: int, b: int)
    ensures Times(-a, b) == Times(a, -b) == -Times(a, b) && Times(-a, -b) == Times(a, b)
  {
  }

  /** Mult: the 64-bit product of two 32-bit words, signed or unsigned as asked. */
  method Mult(a: int32, b: int32, signedArith: bool) returns (hiOut: int32, loOut: int32)
    ensures signedArith ==> SignedDoubleWord(hiOut, loOut) == a * b
    ensures !signedArith ==> DoubleWord(ToUnsigned(hiOut), ToUnsigned(loOut)) == ToUnsigned(a) * ToUnsigned(b)
  {
    hide Times, DoubleWord, SignedDoubleWord;
    assert Times(a, b) == a * b && Times(ToUnsigned(a), ToUnsigned(b)) == ToUnsigned(a) * ToUnsigned(b) by {
      Products(a, b);
      Products(ToUnsigned(a), ToUnsigned(b));
    }
    if a == 0 || b == 0 {
      hiOut, loOut := 0, 0;
      ZeroWords(hiOut, loOut);
      return;
    }
    var negative := false;
    var x: int, y: int := a, b;
    if signedArith {
      if x < 0 {
        negative := !negative;
        x := Wrap(-x);
      }
      if y < 0 {
        negative := !negative;
        y := Wrap(-y);
      }
      Signs(a, b);
      MagnitudeBound(ToUnsigned(x), ToUnsigned(y));
      assert Times(ToUnsigned(x), ToUnsigned(y)) == if negative then -Times(a, b) else Times(a, b);
    }
    var hi: int, lo: int := MultUnsigned(x, y);
    if negative {
      Negated(hi, lo);
      hi := 0xffff_ffff - hi;
      lo := 0xffff_ffff - lo;
      lo := (lo + 1) % 0x1_0000_0000;
      if lo == 0 {
        hi := (hi + 1) % 0x1_0000_0000;
      }
    }
    Signed(hi, lo);
    hiOut, loOut := Wrap(hi), Wrap(lo);
  }

  lemma ZeroWords(hi: int32, lo: int32)
    requires hi == 0 && lo == 0
    ensures DoubleWord(ToUnsigned(hi), ToUnsigned(lo)) == 0 && SignedDoubleWord(hi, lo) == 0
  {
  }

  /** Casting the two words to int. */
  lemma Signed(hi: uint32, lo: uint32)
    ensures DoubleWord(ToUnsigned(Wrap(hi)), ToUnsigned(Wrap(lo))) == DoubleWord(hi, lo)
    ensures DoubleWord(hi, lo) <= 0x4000_0000_0000_0000 ==> SignedDoubleWord(Wrap(hi), Wrap(lo)) == DoubleWord(hi, lo)
  {
  }

  /** Complementing both words and adding one with its carry negates a double word. */
  lemma Negated(hi: uint32, lo: uint32)
    ensures var lo2 := (0xffff_ffff - lo + 1) % 0x1_0000_0000;
            var hi1: int := 0xffff_ffff - hi;
            var hi2 := if lo2 == 0 then (hi1 + 1) % 0x1_0000_0000 else hi1;
            0 < DoubleWord(hi, lo) <= 0x4000_0000_0000_0000 ==>
                SignedDoubleWord(Wrap(hi2), Wrap(lo2)) + DoubleWord(hi, lo) == 0
  {
    var h: int, l: int := hi, lo;
    if l == 0 {
      assert (0xffff_ffff - l + 1) % 0x1_0000_0000 == 0;
      assert h > 0 ==> (0xffff_ffff - h + 1) % 0x1_0000_0000 == 0x1_0000_0000 - h;
    } else {
      assert (0xffff_ffff - l + 1) % 0x1_0000_0000 == 0x1_0000_0000 - l;
    }
  }

  lemma Products(x: int, y: int)
    ensures Times(x, y) == x * y
  {
  }

  /** The main loop of Mult: a's bits one at a time, b moving up. */
  method MultUnsigned(a0: int32, b: int32) returns (hi: uint32, lo: uint32)
    ensures DoubleWord(hi, lo) == Times(ToUnsigned(a0), ToUnsigned(b))
  {
    hide DoubleWord, Partial, Times;
    var a: int := a0;
    var bLo: uint32, bHi: uint32 := ToUnsigned(b), 0;
    hi, lo := 0, 0;
    ghost var u: nat, q: nat, rem: nat, acc: nat, sh: nat := ToUnsigned(a0), ToUnsigned(a0), 0, 0, ToUnsigned(b);
    PartialStart(a0, b);
    for i := 0 to 32
      invariant Partial(u, ToUnsigned(b), i, a0 < 0, a, q, rem, acc, sh)
      invariant DoubleWord(hi, lo) == acc && (i < 32 ==> DoubleWord(bHi, bLo) == sh)
    {
      PartialBounds(u, ToUnsigned(b), i, a0 < 0, a, q, rem, acc, sh);
      PartialStep(u, ToUnsigned(b), i, a0 < 0, a, q, rem, acc, sh);
      if a % 2 == 1 {
        AddDouble(hi, lo, bHi, bLo);
        lo := (lo + bLo) % 0x1_0000_0000;
        if lo < bLo {
          hi := hi + 1;
        }
        hi := hi + bHi;
        if a == 0 || a == 1 {
          NothingLeft(u, ToUnsigned(b), i, a0 < 0, a, q, rem, acc, sh);
          return;
        }
        rem, acc := rem + Pow2(i), acc + sh;
      }
      DoubleUp(bHi, bLo);
      bHi := 2 * bHi % 0x1_0000_0000;
      if bLo >= 0x8000_0000 {
        bHi := bHi + 1;
      }
      bLo := 2 * bLo % 0x1_0000_0000;
      a := a / 2;
      q, sh := q / 2, 2 * sh;
    }
    PartialEnd(u, ToUnsigned(b), a0 < 0, a, q, rem, acc, sh);
  }

  lemma NothingLeft(u: nat, b: nat, i: nat, negative: bool, a: int, q: nat, rem: nat, acc: nat, sh: nat)
    requires Partial(u, b, i, negative, a, q, rem, acc, sh) && a == 1 && (negative ==> a < 0)
    ensures q == 1
  {
  }

  lemma PartialStart(a: int32, b: int32)
    ensures Partial(ToUnsigned(a), ToUnsigned(b), 0, a < 0, a, ToUnsigned(a), 0, 0, ToUnsigned(b))
    ensures DoubleWord(0, 0) == 0 && DoubleWord(0, ToUnsigned(b)) == ToUnsigned(b)
  {
    hide Times, Partial, DoubleWord;
    LowWord(0);
    LowWord(ToUnsigned(b));
    Pow2Word();
    TimesUnits(ToUnsigned(a));
    TimesUnits(ToUnsigned(b));
    StartsWhole(ToUnsigned(a), ToUnsigned(b), a < 0, a);
  }

  lemma LowWord(lo: uint32)
    ensures DoubleWord(0, lo) == lo
  {
  }

  lemma StartsWhole(u: nat, b: nat, negative: bool, a: int)
    requires Pow2(32) == 0x1_0000_0000 && u < 0x1_0000_0000 && a == u - if negative then 0x1_0000_0000 else 0
    requires Times(u, 1) == u && Times(1, b) == b && Times(0, b) == 0
    ensures Partial(u, b, 0, negative, a, u, 0, 0, b)
  {
    hide Times;
    assert Pow2(0) == 1;
  }
}
