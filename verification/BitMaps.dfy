/** The free-sector bitmap. Its class is not among the repository's files, so only what its users
    rely on is promised: Find marks and returns some clear bit, or -1 when there is none. */
module BitMaps {
  import opened Bytes
  import opened Storage

  type Bits = s: seq<bool> | |s| == NUM_SECTORS witness seq(NUM_SECTORS, _ => false)

  function ClearSet(bits: Bits): (s: set<int>)
    ensures forall x :: x in s <==> OnDisk(x) && !bits[x]
  {
    set x: int | 0 <= x < NUM_SECTORS && !bits[x]
  }

  /** bits with every number of xs marked. */
  function Marked(bits: Bits, xs: seq<int>): (r: Bits)
    ensures forall x :: OnDisk(x) ==> r[x] == (bits[x] || x in xs)
  {
    seq(NUM_SECTORS, x requires 0 <= x < NUM_SECTORS => bits[x] || x in xs)
  }

  /** bits with every number of xs cleared. */
  function Cleared(bits: Bits, xs: seq<int>): (r: Bits)
    ensures forall x :: OnDisk(x) ==> r[x] == (bits[x] && x !in xs)
  {
    seq(NUM_SECTORS, x requires 0 <= x < NUM_SECTORS => bits[x] && x !in xs)
  }

  /** How marks fill an integer: mark j has weight 2^j. */
  function PackBits(b: seq<bool>): (v: nat)
    ensures v < Pow2(|b|)
  {
    if b == [] then 0 else (if b[0] then 1 else 0) + 2 * PackBits(b[1..])
  }

  predicate BitOf(v: nat, j: nat) {
    if j == 0 then v % 2 == 1 else BitOf(v / 2, j - 1)
  }

  /** Mark x is bit x % 8 of byte x / 8. */
  function Pack(bits: Bits): Sector {
    assert Pow2(8) == 0x100;
    seq(128, k requires 0 <= k < 128 => PackBits(bits[8 * k..8 * k + 8]))
  }

  function Unpack(s: Sector): Bits {
    seq(NUM_SECTORS, x requires 0 <= x < NUM_SECTORS => BitOf(s[x / 8], x % 8))
  }

  lemma {:induction false} PackedBit(b: seq<bool>, j: nat)
    requires j < |b|
    ensures BitOf(PackBits(b), j) == b[j]
  {
    if j > 0 {
      assert PackBits(b) / 2 == PackBits(b[1..]);
      PackedBit(b[1..], j - 1);
    }
  }

  lemma PackRoundTrip(bits: Bits)
    ensures Unpack(Pack(bits)) == bits
  {
    forall x | 0 <= x < NUM_SECTORS
      ensures Unpack(Pack(bits))[x] == bits[x]
    {
      PackedBit(bits[8 * (x / 8)..8 * (x / 8) + 8], x % 8);
    }
  }

  class BitMap {
    var bits: Bits

    constructor ()
      ensures bits == seq(NUM_SECTORS, _ => false)
    {
      bits := seq(NUM_SECTORS, _ => false);
    }

    method Mark(which: int)
      requires OnDisk(which)
      modifies this
      ensures bits == old(bits)[which := true]
    {
      bits := bits[which := true];
    }

    method Clear(which: int)
      requires OnDisk(which)
      modifies this
      ensures bits == old(bits)[which := false]
    {
      bits := bits[which := false];
    }

    method Test(which: int) returns (r: bool)
      requires OnDisk(which)
      ensures r == bits[which]
    {
      r := bits[which];
    }

    method Find() returns (r: int)
      modifies this
      ensures -1 <= r < NUM_SECTORS && (r == -1 <==> ClearSet(old(bits)) == {})
      ensures r == -1 ==> bits == old(bits)
      ensures r != -1 ==> r in ClearSet(old(bits)) && bits == old(bits)[r := true]
    {
      if ClearSet(bits) == {} {
        r := -1;
      } else {
        r :| r in ClearSet(bits);
        bits := bits[r := true];
      }
    }

    method NumClear() returns (n: nat)
      ensures n == |ClearSet(bits)|
    {
      n := |ClearSet(bits)|;
    }
  }
}
