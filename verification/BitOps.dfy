/** The C bitwise operators on 32-bit words, bit by bit, and what they amount to in arithmetic. */
module BitOps {
  import opened Bytes

  datatype Gate = AndGate | OrGate | XorGate {
    function Apply(p: bool, q: bool): bool {
      match this
      case AndGate => p && q
      case OrGate => p || q
      case XorGate => p != q
    }
  }

  /** Bit k of x. */
  function Bit(x: nat, k: nat): bool
    decreases k
  {
    if k == 0 then x % 2 == 1 else Bit(x / 2, k - 1)
  }

  /** A gate applied to the lowest n bits of x and y. */
  function Bitwise(g: Gate, x: nat, y: nat, n: nat): (r: nat)
    ensures r < Pow2(n)
    decreases n
  {
    if n == 0 then 0 else 2 * Bitwise(g, x / 2, y / 2, n - 1) + (if g.Apply(x % 2 == 1, y % 2 == 1) then 1 else 0)
  }

  /** A C int back from its bit pattern. */
  function FromUnsigned(u: nat): (x: int32)
    requires u < 0x1_0000_0000
    ensures ToUnsigned(x) == u
  {
    if u < 0x8000_0000 then u else u - 0x1_0000_0000
  }

  function Combine(g: Gate, x: int32, y: int32): int32 {
    SmallPowers();
    FromUnsigned(Bitwise(g, ToUnsigned(x), ToUnsigned(y), 32))
  }

  function And(x: int32, y: int32): int32 {
    Combine(AndGate, x, y)
  }

  function Or(x: int32, y: int32): int32 {
    Combine(OrGate, x, y)
  }

  function Xor(x: int32, y: int32): int32 {
    Combine(XorGate, x, y)
  }

  function Not(x: int32): int32 {
    -1 - x
  }

  lemma {:induction false} BitwiseBit(g: Gate, x: nat, y: nat, n: nat, k: nat)
    requires k < n
    ensures Bit(Bitwise(g, x, y, n), k) == g.Apply(Bit(x, k), Bit(y, k))
    decreases k
  {
    if k > 0 {
      BitwiseBit(g, x / 2, y / 2, n - 1, k - 1);
    }
  }

  /** And, or and exclusive or act on each bit by itself. */
  lemma CombinedBits(g: Gate, x: int32, y: int32, k: nat)
    requires k < 32
    ensures Bit(ToUnsigned(Combine(g, x, y)), k) == g.Apply(Bit(ToUnsigned(x), k), Bit(ToUnsigned(y), k))
  {
    hide Bit, Bitwise;
    SmallPowers();
    BitwiseBit(g, ToUnsigned(x), ToUnsigned(y), 32, k);
  }

  lemma {:induction false} TopBit(x: nat, n: nat)
    requires x < Pow2(n + 1)
    ensures Bit(x, n) <==> x >= Pow2(n)
    decreases n
  {
    if n > 0 {
      TopBit(x / 2, n - 1);
    }
  }

  /** The sign bit, which C's tests with SIGN_BIT look at. */
  lemma SignIsTopBit(x: int32)
    ensures Bit(ToUnsigned(x), 31) <==> x < 0
  {
    SmallPowers();
    assert Pow2(32) == 2 * Pow2(31);
    TopBit(ToUnsigned(x), 31);
  }

  /** Two words differ in sign exactly when their exclusive or has the sign bit. */
  lemma SignOfXor(x: int32, y: int32)
    ensures Xor(x, y) < 0 <==> (x < 0) != (y < 0)
  {
    SmallPowers();
    var r := Bitwise(XorGate, ToUnsigned(x), ToUnsigned(y), 32);
    BitwiseBit(XorGate, ToUnsigned(x), ToUnsigned(y), 32, 31);
    SignIsTopBit(x);
    SignIsTopBit(y);
    SignIsTopBit(FromUnsigned(r));
  }

  /** The test that ADD and ADDI make: wrapping changed the sum's sign against that of both operands. */
  lemma AddOverflows(x: int32, y: int32)
    ensures Xor(x, y) >= 0 && Xor(x, Wrap(x + y)) < 0 <==> !(-0x8000_0000 <= x + y < 0x8000_0000)
    ensures Xor(x, y) >= 0 && Xor(y, Wrap(x + y)) < 0 <==> !(-0x8000_0000 <= x + y < 0x8000_0000)
  {
    hide Xor;
    SignOfXor(x, y);
    SignOfXor(x, Wrap(x + y));
    SignOfXor(y, Wrap(x + y));
  }

  /** The test that SUB makes. */
  lemma SubOverflows(x: int32, y: int32)
    ensures Xor(x, y) < 0 && Xor(x, Wrap(x - y)) < 0 <==> !(-0x8000_0000 <= x - y < 0x8000_0000)
  {
    hide Xor;
    SignOfXor(x, y);
    SignOfXor(x, Wrap(x - y));
  }

  /** The lowest k bits of x. */
  function Low(x: nat, k: nat): nat
    decreases k
  {
    if k == 0 then 0 else 2 * Low(x / 2, k - 1) + x % 2
  }

  function High(x: nat, k: nat): nat
    decreases k
  {
    if k == 0 then x else High(x / 2, k - 1)
  }

  function Product(x: nat, y: nat): nat {
    x * y
  }

  lemma ProductFacts(p: nat, q: nat)
    ensures Product(2 * p, q) == 2 * Product(p, q) && Product(1, q) == q
  {
  }

  /** A number is its high bits, moved up, and its low bits. */
  lemma {:induction false} HighAndLow(x: nat, k: nat)
    ensures x == Product(Pow2(k), High(x, k)) + Low(x, k) && Low(x, k) < Pow2(k)
    decreases k
  {
    hide Product;
    if k > 0 {
      HighAndLow(x / 2, k - 1);
      ProductFacts(Pow2(k - 1), High(x, k));
    } else {
      ProductFacts(0, x);
    }
  }

  lemma SmallPowers()
    ensures Pow2(7) == 0x80 && Pow2(8) == 0x100 && Pow2(15) == 0x8000 && Pow2(16) == 0x1_0000 && Pow2(24) == 0x100_0000
    ensures Pow2(28) == 0x1000_0000
    ensures Pow2(32) == 0x1_0000_0000
  {
    assert Pow2(7) == 128;
    assert Pow2(15) == 256 * Pow2(7);
    assert Pow2(16) == 2 * Pow2(15);
    assert Pow2(24) == 256 * Pow2(16);
    assert Pow2(28) == 16 * Pow2(24);
    assert Pow2(32) == 16 * Pow2(28);
  }

  lemma Modulo8(x: nat, h: nat, l: nat)
    requires x == 0x100 * h + l && l < 0x100
    ensures x % 0x100 == l
  {
  }

  lemma Modulo16(x: nat, h: nat, l: nat)
    requires x == 0x1_0000 * h + l && l < 0x1_0000
    ensures x % 0x1_0000 == l
  {
  }

  lemma Modulo24(x: nat, h: nat, l: nat)
    requires x == 0x100_0000 * h + l && l < 0x100_0000
    ensures x % 0x100_0000 == l
  {
  }

  lemma Modulo28(x: nat, h: nat, l: nat)
    requires x == 0x1000_0000 * h + l && l < 0x1000_0000
    ensures x % 0x1000_0000 == l
  {
  }

  /** The lowest 8, 16, 24 and 28 bits as remainders. */
  lemma LowBits(x: nat)
    ensures Low(x, 8) == x % 0x100 && Low(x, 16) == x % 0x1_0000
    ensures Low(x, 24) == x % 0x100_0000 && Low(x, 28) == x % 0x1000_0000
  {
    hide Low, High;
    SmallPowers();
    HighAndLow(x, 8);
    HighAndLow(x, 16);
    HighAndLow(x, 24);
    HighAndLow(x, 28);
    Modulo8(x, High(x, 8), Low(x, 8));
    Modulo16(x, High(x, 16), Low(x, 16));
    Modulo24(x, High(x, 24), Low(x, 24));
    Modulo28(x, High(x, 28), Low(x, 28));
  }

  lemma LowStep(x: nat, k: nat)
    requires k > 0
    ensures Low(x, k) == 2 * Low(x / 2, k - 1) + x % 2 && Pow2(k) == 2 * Pow2(k - 1)
  {
  }

  lemma Doubling(n: nat)
    requires n > 0
    ensures Pow2(n) == 2 * Pow2(n - 1)
  {
  }

  /** One bit of a mask at a time. */
  lemma MaskStep(g: Gate, x: nat, mask: nat, n: nat, half: nat, odd: bool)
    requires n > 0 && mask == 2 * half + (if odd then 1 else 0)
    ensures Bitwise(g, x, mask, n) == 2 * Bitwise(g, x / 2, half, n - 1) + (if g.Apply(x % 2 == 1, odd) then 1 else 0)
  {
    assert mask / 2 == half && (mask % 2 == 1 <==> odd);
  }

  lemma NoPlaces(x: nat)
    ensures Low(x, 0) == 0 && Pow2(0) == 1
  {
  }

  /** A mask of k low bits leaves the remainder modulo 2^k. */
  lemma {:induction false} AndLow(x: nat, n: nat, k: nat)
    requires k <= n
    ensures Bitwise(AndGate, x, Pow2(k) - 1, n) == Low(x, k)
    decreases n
  {
    hide Bitwise, Low, Pow2;
    if k > 0 {
      LowStep(x, k);
      Doubling(n);
      AndLow(x / 2, n - 1, k - 1);
      MaskStep(AndGate, x, Pow2(k) - 1, n, Pow2(k - 1) - 1, true);
    } else {
      NoPlaces(x);
      AndNothing(x, n);
    }
  }

  lemma {:induction false} AndNothing(x: nat, n: nat)
    ensures Bitwise(AndGate, x, 0, n) == 0
    decreases n
  {
    if n > 0 {
      AndNothing(x / 2, n - 1);
    }
  }

  lemma {:induction false} OrNothing(x: nat, n: nat)
    requires x < Pow2(n)
    ensures Bitwise(OrGate, x, 0, n) == x == Bitwise(OrGate, 0, x, n)
    decreases n
  {
    if n > 0 {
      OrNothing(x / 2, n - 1);
    }
  }

  lemma {:induction false} OrAll(x: nat, n: nat)
    ensures Bitwise(OrGate, x, Pow2(n) - 1, n) == Pow2(n) - 1
    decreases n
  {
    if n > 0 {
      hide Bitwise, Pow2;
      Doubling(n);
      OrAll(x / 2, n - 1);
      MaskStep(OrGate, x, Pow2(n) - 1, n, Pow2(n - 1) - 1, true);
    }
  }

  lemma {:induction false} AndAll(x: nat, n: nat)
    requires x < Pow2(n)
    ensures Bitwise(AndGate, x, Pow2(n) - 1, n) == x
    decreases n
  {
    if n > 0 {
      hide Bitwise, Pow2;
      Doubling(n);
      AndAll(x / 2, n - 1);
      MaskStep(AndGate, x, Pow2(n) - 1, n, Pow2(n - 1) - 1, true);
    }
  }

  /** A mask of everything but k low bits takes the remainder modulo 2^k away. */
  lemma {:induction false} AndHigh(x: nat, n: nat, k: nat)
    requires k <= n && x < Pow2(n) && Pow2(k) <= Pow2(n)
    ensures Bitwise(AndGate, x, Pow2(n) - Pow2(k), n) == x - Low(x, k)
    decreases n
  {
    hide Bitwise, Low, Pow2;
    if k > 0 {
      LowStep(x, k);
      Doubling(n);
      AndHigh(x / 2, n - 1, k - 1);
      MaskStep(AndGate, x, Pow2(n) - Pow2(k), n, Pow2(n - 1) - Pow2(k - 1), false);
    } else {
      NoPlaces(x);
      AndAll(x, n);
    }
  }

  /** Setting all but k low bits. */
  lemma {:induction false} OrHigh(x: nat, n: nat, k: nat)
    requires k <= n && Pow2(k) <= Pow2(n)
    ensures Bitwise(OrGate, x, Pow2(n) - Pow2(k), n) == Pow2(n) - Pow2(k) + Low(x, k)
    decreases n
  {
    hide Bitwise, Low, Pow2;
    if k > 0 {
      LowStep(x, k);
      Doubling(n);
      OrHigh(x / 2, n - 1, k - 1);
      MaskStep(OrGate, x, Pow2(n) - Pow2(k), n, Pow2(n - 1) - Pow2(k - 1), false);
    } else {
      NoPlaces(x);
      OrAll(x, n);
    }
  }

  /** Words with no bit in common are added by or. */
  lemma {:induction false} OrDisjoint(x: nat, y: nat, n: nat, k: nat)
    requires k <= n && y < Pow2(k) && Low(x, k) == 0 && x < Pow2(n)
    ensures Bitwise(OrGate, x, y, n) == x + y
    decreases n
  {
    if k > 0 {
      OrDisjoint(x / 2, y / 2, n - 1, k - 1);
    } else {
      OrNothing(x, n);
    }
  }

  /** A one-bit mask tests that bit. */
  lemma {:induction false} AndBit(x: nat, n: nat, k: nat)
    requires k < n
    ensures Bitwise(AndGate, x, Pow2(k), n) == if Bit(x, k) then Pow2(k) else 0
    decreases n
  {
    if k > 0 {
      AndBit(x / 2, n - 1, k - 1);
    } else {
      AndNothing(x / 2, n - 1);
    }
  }

  lemma {:induction false} BitOfLow(x: nat, k: nat)
    ensures Bit(x, k) <==> Low(x, k + 1) >= Pow2(k)
    decreases k
  {
    if k > 0 {
      BitOfLow(x / 2, k - 1);
    }
  }

  /** What the masks used on a loaded byte do, whatever the word's upper 24 bits. */
  lemma ByteMasks(v: int32)
    ensures var b := ToUnsigned(v) % 0x100;
            And(v, 0xff) == b && Or(v, -0x100) == b - 0x100 && (And(v, 0x80) != 0 <==> b >= 0x80)
  {
    hide Bitwise, Low, Bit;
    var u := ToUnsigned(v);
    SmallPowers();
    LowBits(u);
    AndLow(u, 32, 8);
    OrHigh(u, 32, 8);
    AndBit(u, 32, 7);
    BitOfLow(u, 7);
  }

  /** What the masks used on a loaded half word do. */
  lemma HalfMasks(v: int32)
    ensures var h := ToUnsigned(v) % 0x1_0000;
            And(v, 0xffff) == h && Or(v, -0x1_0000) == h - 0x1_0000 && (And(v, 0x8000) != 0 <==> h >= 0x8000)
  {
    hide Bitwise, Low, Bit;
    var u := ToUnsigned(v);
    SmallPowers();
    LowBits(u);
    AndLow(u, 32, 16);
    OrHigh(u, 32, 16);
    AndBit(u, 32, 15);
    BitOfLow(u, 15);
  }

  lemma RoundedDown(u: nat)
    ensures (u - u % 0x100) % 0x100 == 0 && (u - u % 0x1000_0000) % 0x1000_0000 == 0
  {
  }

  /** A jump keeps the top four bits of the address and replaces the rest. */
  lemma JumpTarget(pc: int32, index: int32)
    requires 0 <= index < 0x1000_0000
    ensures ToUnsigned(Or(And(pc, -0x1000_0000), index)) == ToUnsigned(pc) - ToUnsigned(pc) % 0x1000_0000 + index
  {
    hide Bitwise, Low, Bit;
    var u := ToUnsigned(pc);
    SmallPowers();
    LowBits(u);
    AndHigh(u, 32, 28);
    var x := u - u % 0x1000_0000;
    LowBits(x);
    RoundedDown(u);
    OrDisjoint(x, index, 32, 28);
  }

  lemma {:induction false} BitwiseCommutes(g: Gate, x: nat, y: nat, n: nat)
    ensures Bitwise(g, x, y, n) == Bitwise(g, y, x, n)
    decreases n
  {
    if n > 0 {
      BitwiseCommutes(g, x / 2, y / 2, n - 1);
    }
  }

  /** LWR at an aligned address replaces the lowest byte. */
  lemma ReplaceLowByte(x: int32, b: int32)
    requires 0 <= b < 0x100
    ensures ToUnsigned(Or(And(x, -0x100), b)) == ToUnsigned(x) - ToUnsigned(x) % 0x100 + b
  {
    hide Bitwise, Low, Bit;
    var u := ToUnsigned(x);
    SmallPowers();
    LowBits(u);
    AndHigh(u, 32, 8);
    LowBits(u - u % 0x100);
    RoundedDown(u);
    OrDisjoint(u - u % 0x100, b, 32, 8);
  }

  lemma TopByte(x: int32)
    ensures ToUnsigned(Wrap(x * 0x100_0000)) == ToUnsigned(x) % 0x100 * 0x100_0000
  {
  }

  /** SWR at an aligned address replaces the highest byte. */
  lemma ReplaceHighByte(was: int32, x: int32)
    ensures ToUnsigned(Or(And(was, 0xff_ffff), Wrap(x * 0x100_0000)))
         == ToUnsigned(was) % 0x100_0000 + ToUnsigned(x) % 0x100 * 0x100_0000
  {
    hide Bitwise, Low, Bit, Wrap;
    var u, h := ToUnsigned(was), ToUnsigned(x) % 0x100 * 0x100_0000;
    TopByte(x);
    SmallPowers();
    LowBits(u);
    AndLow(u, 32, 24);
    LowBits(h);
    OrDisjoint(h, u % 0x100_0000, 32, 24);
    BitwiseCommutes(OrGate, h, u % 0x100_0000, 32);
  }

  // ---- Shifts, one place at a time ----

  function ShiftLeft(x: int32, k: nat): int32
    decreases k
  {
    if k == 0 then x else ShiftLeft(Wrap(2 * x), k - 1)
  }

  /** C's >> of an int: the sign bit comes in again and again. */
  function ShiftRightArithmetic(x: int32, k: nat): int32
    decreases k
  {
    if k == 0 then x else ShiftRightArithmetic(x / 2, k - 1)
  }

  /** C's >> of an unsigned int: zeros come in. */
  function ShiftRightLogical(x: int32, k: nat): int32 {
    HighBelow(ToUnsigned(x), k);
    FromUnsigned(High(ToUnsigned(x), k))
  }

  lemma HighBelow(u: nat, k: nat)
    ensures High(u, k) <= u
    decreases k
  {
  }

  /** Adding 2^n leaves the bits below n alone. */
  lemma {:induction false} BitBelow(u: nat, n: nat, j: nat)
    requires j < n
    ensures Bit(u + Pow2(n), j) == Bit(u, j)
    decreases j
  {
    assert (u + Pow2(n)) / 2 == u / 2 + Pow2(n - 1) && (u + Pow2(n)) % 2 == u % 2;
    if j > 0 {
      BitBelow(u / 2, n - 1, j - 1);
    }
  }

  lemma DoubledBits(x: int32, j: nat)
    requires j < 32
    ensures Bit(ToUnsigned(Wrap(2 * x)), j) == (j > 0 && Bit(ToUnsigned(x), j - 1))
  {
    hide Bit, Pow2;
    var u, v := ToUnsigned(x), ToUnsigned(Wrap(2 * x));
    SmallPowers();
    BitStep(v, j);
    if j > 0 {
      var rest := if u >= 0x8000_0000 then u - 0x8000_0000 else u;
      Pow2Top();
      assert v == 2 * rest && v / 2 == rest;
      if u >= 0x8000_0000 {
        BitBelow(rest, 31, j - 1);
      }
    } else {
      assert v % 2 == 0;
    }
  }

  lemma BitStep(u: nat, j: nat)
    ensures Bit(u, j) == if j == 0 then u % 2 == 1 else Bit(u / 2, j - 1)
  {
  }

  lemma Pow2Top()
    ensures Pow2(31) == 0x8000_0000
  {
    SmallPowers();
    assert Pow2(32) == 2 * Pow2(31);
  }

  lemma HalvedBits(x: int32, j: nat)
    requires j < 32
    ensures Bit(ToUnsigned(x / 2), j) == if j < 31 then Bit(ToUnsigned(x), j + 1) else x < 0
  {
    hide Bit, Pow2;
    var u := ToUnsigned(x);
    Pow2Top();
    BitStep(u, j + 1);
    if j == 31 {
      SignIsTopBit(x / 2);
    } else if x < 0 {
      assert ToUnsigned(x / 2) == u / 2 + 0x8000_0000;
      BitBelow(u / 2, 31, j);
    }
  }

  /** Bit by bit: a left shift moves every bit up and brings zeros in. */
  lemma {:induction false} ShiftLeftBits(x: int32, k: nat, j: nat)
    requires j < 32
    ensures Bit(ToUnsigned(ShiftLeft(x, k)), j) == (j >= k && Bit(ToUnsigned(x), j - k))
    decreases k
  {
    hide Bit, Wrap;
    if k > 0 {
      ShiftLeftBits(Wrap(2 * x), k - 1, j);
      if j >= k - 1 {
        DoubledBits(x, j - (k - 1));
      }
    }
  }

  /** An arithmetic right shift moves every bit down and repeats the sign. */
  lemma {:induction false} ShiftRightArithmeticBits(x: int32, k: nat, j: nat)
    requires j < 32
    ensures Bit(ToUnsigned(ShiftRightArithmetic(x, k)), j) == if j + k < 32 then Bit(ToUnsigned(x), j + k) else x < 0
    decreases k
  {
    hide Bit;
    if k > 0 {
      ShiftRightArithmeticBits(x / 2, k - 1, j);
      if j + k - 1 < 32 {
        HalvedBits(x, j + k - 1);
      }
    }
  }

  /** A logical right shift moves every bit down and brings zeros in. */
  lemma ShiftRightLogicalBits(x: int32, k: nat, j: nat)
    requires j < 32
    ensures Bit(ToUnsigned(ShiftRightLogical(x, k)), j) == (j + k < 32 && Bit(ToUnsigned(x), j + k))
  {
    hide Bit, High, Pow2;
    HighBit(ToUnsigned(x), k, j);
    SmallPowers();
    if j + k >= 32 {
      NoBitAbove(ToUnsigned(x), 32, j + k);
    }
  }

  lemma {:induction false} HighBit(u: nat, k: nat, j: nat)
    ensures Bit(High(u, k), j) == Bit(u, j + k)
    decreases k
  {
    if k > 0 {
      HighBit(u / 2, k - 1, j);
    }
  }

  lemma {:induction false} NoBitAbove(u: nat, n: nat, j: nat)
    requires u < Pow2(n) && j >= n
    ensures !Bit(u, j)
    decreases j
  {
    if n == 0 {
      NoBits(j);
    } else {
      NoBitAbove(u / 2, n - 1, j - 1);
    }
  }

  lemma {:induction false} NoBits(j: nat)
    ensures !Bit(0, j)
    decreases j
  {
    if j > 0 {
      NoBits(j - 1);
    }
  }

  // ---- All zeros and all ones ----

  lemma {:induction false} ZeroBits(y: nat, n: nat)
    requires y < Pow2(n)
    ensures Bitwise(AndGate, 0, y, n) == 0 && Bitwise(OrGate, 0, y, n) == y && Bitwise(XorGate, 0, y, n) == y
    decreases n
  {
    if n > 0 {
      ZeroBits(y / 2, n - 1);
    }
  }

  lemma {:induction false} OneBits(y: nat, n: nat)
    requires y < Pow2(n)
    ensures Bitwise(AndGate, Pow2(n) - 1, y, n) == y && Bitwise(OrGate, Pow2(n) - 1, y, n) == Pow2(n) - 1
    ensures Bitwise(XorGate, Pow2(n) - 1, y, n) == Pow2(n) - 1 - y
    decreases n
  {
    if n > 0 {
      hide Bitwise, Pow2;
      Doubling(n);
      OneBits(y / 2, n - 1);
      OnesStep(AndGate, Pow2(n) - 1, y, n, Pow2(n - 1) - 1);
      OnesStep(OrGate, Pow2(n) - 1, y, n, Pow2(n - 1) - 1);
      OnesStep(XorGate, Pow2(n) - 1, y, n, Pow2(n - 1) - 1);
    }
  }

  lemma OnesStep(g: Gate, ones: nat, y: nat, n: nat, half: nat)
    requires n > 0 && ones == 2 * half + 1
    ensures Bitwise(g, ones, y, n) == 2 * Bitwise(g, half, y / 2, n - 1) + (if g.Apply(true, y % 2 == 1) then 1 else 0)
  {
    assert ones / 2 == half && ones % 2 == 1;
  }

  /** The operators with a word of zeros or of ones. */
  lemma ConstantWords(y: int32)
    ensures And(0, y) == 0 && Or(0, y) == y && Xor(0, y) == y
    ensures And(-1, y) == y && Or(-1, y) == -1 && Xor(-1, y) == Not(y)
  {
    hide Bitwise;
    SmallPowers();
    ZeroBits(ToUnsigned(y), 32);
    OneBits(ToUnsigned(y), 32);
  }

  lemma {:induction false} BitwiseSelf(x: nat, n: nat)
    requires x < Pow2(n)
    ensures Bitwise(AndGate, x, x, n) == x && Bitwise(OrGate, x, x, n) == x && Bitwise(XorGate, x, x, n) == 0
    decreases n
  {
    if n > 0 {
      BitwiseSelf(x / 2, n - 1);
    }
  }

  lemma CombineCommutes(g: Gate, x: int32, y: int32)
    ensures Combine(g, x, y) == Combine(g, y, x)
  {
    hide Bitwise;
    BitwiseCommutes(g, ToUnsigned(x), ToUnsigned(y), 32);
  }

  /** The operators on a word and itself. */
  lemma CombineSelf(x: int32)
    ensures And(x, x) == x && Or(x, x) == x && Xor(x, x) == 0
  {
    hide Bitwise;
    SmallPowers();
    BitwiseSelf(ToUnsigned(x), 32);
  }

  lemma {:induction false} ShiftsOfZero(k: nat)
    ensures ShiftLeft(0, k) == 0 && ShiftRightArithmetic(0, k) == 0 && High(0, k) == 0
    decreases k
  {
    if k > 0 {
      assert Wrap(2 * 0) == 0;
      ShiftsOfZero(k - 1);
    }
  }

  lemma ShiftsByNothing(x: int32)
    ensures ShiftLeft(x, 0) == x && ShiftRightArithmetic(x, 0) == x && ShiftRightLogical(x, 0) == x
  {
  }

  lemma {:induction false} AllOnes(n: nat, k: nat)
    requires k < n
    ensures Bit(Pow2(n) - 1, k)
    decreases k
  {
    assert (Pow2(n) - 1) / 2 == Pow2(n - 1) - 1 && (Pow2(n) - 1) % 2 == 1;
    if k > 0 {
      AllOnes(n - 1, k - 1);
    }
  }

  /** A shift by fewer than 32 places tells zeros from ones, and one by at least one place moves a lone bit. */
  lemma ShiftsShow(k: nat)
    requires k < 32
    ensures ShiftLeft(0, k) != ShiftLeft(-1, k)
    ensures ShiftRightArithmetic(0, k) != ShiftRightArithmetic(-1, k)
    ensures ShiftRightLogical(0, k) != ShiftRightLogical(-1, k)
    ensures k > 0 ==> ShiftLeft(1, k) != 1 && ShiftRightArithmetic(1, k) != 1 && ShiftRightLogical(1, k) != 1
  {
    hide Bit, ShiftLeft, ShiftRightArithmetic, ShiftRightLogical, Pow2;
    SmallPowers();
    AllOnes(32, 0);
    AllOnes(32, k);
    NoBits(0);
    NoBits(k);
    ShiftLeftBits(0, k, k);
    ShiftLeftBits(-1, k, k);
    ShiftRightArithmeticBits(0, k, 0);
    ShiftRightArithmeticBits(-1, k, 0);
    ShiftRightLogicalBits(0, k, 0);
    ShiftRightLogicalBits(-1, k, 0);
    if k > 0 {
      OneBit(k);
      ShiftLeftBits(1, k, 0);
      ShiftRightArithmeticBits(1, k, 0);
      ShiftRightLogicalBits(1, k, 0);
    }
  }

  lemma OneBit(k: nat)
    requires k > 0
    ensures Bit(1, 0) && !Bit(1, k)
  {
    NoBits(k - 1);
  }
}
