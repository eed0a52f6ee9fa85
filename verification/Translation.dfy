/** Address translation: from virtual addresses to the machine's memory, through a page table or a TLB. */
module Translation {
  import opened Bytes
  import opened BitOps

  const NUM_PHYS_PAGES := 256
  const TLB_SIZE := 4

  datatype TranslationEntry = TranslationEntry(virtualPage: uint32, physicalPage: uint32,
                                               valid: bool, readOnly: bool, use: bool, dirty: bool)

  datatype ExceptionType = Syscall | PageFault | ReadOnly | BusError | AddressError | Overflow | IllegalInstr

  /** The translation in force: either a linear page table or a TLB, never both. */
  datatype Mmu = PageTable(entries: seq<TranslationEntry>) | Tlb(entries: seq<TranslationEntry>)

  datatype Translated = Physical(address: nat, index: nat) | Fault(e: ExceptionType)

  type Memory = m: seq<byte> | |m| == 0x8000 witness seq(0x8000, _ => 0)

  predicate IsSize(size: int) {
    size == 1 || size == 2 || size == 4
  }

  /** The first TLB slot at or after i with a valid entry for the page, or -1. */
  function FirstMatch(tlb: seq<TranslationEntry>, vpn: nat, i: nat): (r: int)
    requires i <= |tlb|
    ensures r == -1 ==> forall j :: i <= j < |tlb| ==> !(tlb[j].valid && tlb[j].virtualPage == vpn)
    ensures r != -1 ==> i <= r < |tlb| && tlb[r].valid && tlb[r].virtualPage == vpn
    ensures r != -1 ==> forall j :: i <= j < r ==> !(tlb[j].valid && tlb[j].virtualPage == vpn)
    decreases |tlb| - i
  {
    if i == |tlb| then -1
    else if tlb[i].valid && tlb[i].virtualPage == vpn then i
    else FirstMatch(tlb, vpn, i + 1)
  }

  /** The entry for a virtual page, or the exception there is none. */
  function LookUp(m: Mmu, vpn: nat): (t: Translated)
    ensures t.Physical? ==> t.index < |m.entries| && m.entries[t.index].valid
  {
    match m
    case PageTable(entries) =>
      if vpn >= |entries| then Fault(AddressError)
      else if !entries[vpn].valid then Fault(PageFault)
      else Physical(0, vpn)
    case Tlb(entries) =>
      var i := FirstMatch(entries, vpn, 0);
      if i == -1 then Fault(PageFault) else Physical(0, i)
  }

  /** An aligned access stays inside its page, and so inside memory. */
  lemma InFrame(frame: nat, u: nat, size: int)
    requires frame < 256
    ensures frame * 128 + u % 128 < 0x8000 && (frame * 128 + u % 128) % 128 == u % 128
    ensures IsSize(size) && !(size == 4 && u % 4 != 0) && !(size == 2 && u % 2 != 0) ==> u % 128 + size <= 128
  {
    var page, offset := u / 128, u % 128;
    assert u == 128 * page + offset;
    assert offset % 4 == u % 4 && offset % 2 == u % 2;
  }

  /** Where an access goes, or the exception it meets: alignment first, then the page, then the permission, then the
      frame. */
  function Resolve(m: Mmu, virtAddr: int32, size: int, writing: bool): (t: Translated)
    ensures t.Physical? ==> t.index < |m.entries| && t.address < 0x8000
    ensures t.Physical? && IsSize(size) ==> t.address % 128 + size <= 128 && t.address + size <= 0x8000
  {
    var u := ToUnsigned(virtAddr);
    if (size == 4 && u % 4 != 0) || (size == 2 && u % 2 != 0) then Fault(AddressError)
    else
      var entry := LookUp(m, u / 128);
      if entry.Fault? then entry
      else
        var e := m.entries[entry.index];
        if e.readOnly && writing then Fault(ReadOnly)
        else if e.physicalPage >= 256 then Fault(BusError)
        else
          InFrame(e.physicalPage, u, size);
          Physical(e.physicalPage * 128 + u % 128, entry.index)
  }

  /** Two entries that translate alike: all but the use and dirty bits agree. */
  predicate SameEntry(a: TranslationEntry, b: TranslationEntry) {
    a.(use := b.use, dirty := b.dirty) == b
  }

  ghost predicate SameMapping(a: Mmu, b: Mmu) {
    && (a.Tlb? <==> b.Tlb?) && |a.entries| == |b.entries|
    && forall i :: 0 <= i < |a.entries| ==> SameEntry(a.entries[i], b.entries[i])
  }

  lemma SameMappingTrans(a: Mmu, b: Mmu, c: Mmu)
    requires SameMapping(a, b) && SameMapping(b, c)
    ensures SameMapping(a, c)
  {
    forall i | 0 <= i < |a.entries|
      ensures SameEntry(a.entries[i], c.entries[i])
    {
      assert SameEntry(a.entries[i], b.entries[i]) && SameEntry(b.entries[i], c.entries[i]);
    }
  }

  lemma SameLookUp(a: Mmu, b: Mmu, vpn: nat)
    requires SameMapping(a, b)
    ensures LookUp(a, vpn) == LookUp(b, vpn)
  {
    forall i | 0 <= i < |a.entries|
      ensures a.entries[i].valid == b.entries[i].valid && a.entries[i].virtualPage == b.entries[i].virtualPage
    {
      assert SameEntry(a.entries[i], b.entries[i]);
    }
    if a.Tlb? {
      var i, j := FirstMatch(a.entries, vpn, 0), FirstMatch(b.entries, vpn, 0);
      assert i == j;
    }
  }

  /** The bits that translation itself sets do not change any later translation. */
  lemma SameResolve(a: Mmu, b: Mmu, virtAddr: int32, size: int, writing: bool)
    requires SameMapping(a, b)
    ensures Resolve(a, virtAddr, size, writing) == Resolve(b, virtAddr, size, writing)
  {
    hide LookUp;
    var entry := LookUp(a, ToUnsigned(virtAddr) / 128);
    SameLookUp(a, b, ToUnsigned(virtAddr) / 128);
    if entry.Physical? {
      assert SameEntry(a.entries[entry.index], b.entries[entry.index]);
    }
  }

  /** Every valid TLB entry repeats the page table's entry for its page. */
  ghost predicate Caches(tlb: seq<TranslationEntry>, table: seq<TranslationEntry>) {
    forall i :: 0 <= i < |tlb| && tlb[i].valid ==>
      && tlb[i].virtualPage < |table|
      && table[tlb[i].virtualPage].valid
      && table[tlb[i].virtualPage].physicalPage == tlb[i].physicalPage
      && table[tlb[i].virtualPage].readOnly == tlb[i].readOnly
  }

  predicate Cached(tlb: seq<TranslationEntry>, vpn: nat) {
    exists i :: 0 <= i < |tlb| && tlb[i].valid && tlb[i].virtualPage == vpn
  }

  /** A TLB that caches a page table answers as the table does on exactly the pages it holds, and with a page
      fault on every other page, unless the access is misaligned, which both refuse alike. */
  lemma TlbAgrees(tlb: seq<TranslationEntry>, table: seq<TranslationEntry>, virtAddr: int32, size: int, writing: bool)
    requires Caches(tlb, table)
    ensures var t, p := Resolve(Tlb(tlb), virtAddr, size, writing), Resolve(PageTable(table), virtAddr, size, writing);
            var u := ToUnsigned(virtAddr);
            if (size == 4 && u % 4 != 0) || (size == 2 && u % 2 != 0) then t == p == Fault(AddressError)
            else if Cached(tlb, u / 128) then
                (t.Fault? <==> p.Fault?) && (t.Fault? ==> t == p) && (t.Physical? ==> t.address == p.address)
            else t == Fault(PageFault)
  {
  }

  // ---- Memory, physical and virtual ----

  function ByteOf(v: uint32, k: nat): (b: byte) {
    if k == 0 then v % 0x100
    else if k == 1 then v / 0x100 % 0x100
    else if k == 2 then v / 0x100 / 0x100 % 0x100
    else if k == 3 then v / 0x100 / 0x100 / 0x100
    else 0
  }

  /** Four bytes as a little-endian number. */
  function Assemble(b0: int, b1: int, b2: int, b3: int): int {
    b0 + 0x100 * (b1 + 0x100 * (b2 + 0x100 * b3))
  }

  lemma AssembledBytes(b0: byte, b1: byte, b2: byte, b3: byte)
    ensures 0 <= Assemble(b0, b1, b2, b3) < 0x1_0000_0000
    ensures var v := Assemble(b0, b1, b2, b3);
            ByteOf(v, 0) == b0 && ByteOf(v, 1) == b1 && ByteOf(v, 2) == b2 && ByteOf(v, 3) == b3
  {
    var v := Assemble(b0, b1, b2, b3);
    var b1': int, b2': int := b1, b2;
    assert v / 0x100 == b1' + 0x100 * (b2' + 0x100 * b3);
    assert v / 0x100 / 0x100 == b2' + 0x100 * b3;
  }

  lemma BytesAssembled(v: uint32)
    ensures Assemble(ByteOf(v, 0), ByteOf(v, 1), ByteOf(v, 2), ByteOf(v, 3)) == v
    ensures Assemble(ByteOf(v, 0), ByteOf(v, 1), 0, 0) == v % 0x1_0000 && Assemble(ByteOf(v, 0), 0, 0, 0) == v % 0x100
  {
    assert v / 0x100 % 0x100 == v / 0x100 - 0x100 * (v / 0x100 / 0x100);
  }

  /** The little-endian number that the bytes at an address make. */
  function Fetch(mem: Memory, at: nat, size: nat): (v: uint32)
    requires IsSize(size) && at + size <= 0x8000
  {
    var b1: byte, b2: byte, b3: byte :=
      if size > 1 then mem[at + 1] else 0, if size > 2 then mem[at + 2] else 0, if size > 2 then mem[at + 3] else 0;
    AssembledBytes(mem[at], b1, b2, b3);
    Assemble(mem[at], b1, b2, b3)
  }

  function ByteAfter(mem: Memory, at: nat, size: nat, v: uint32, p: nat): byte
    requires p < 0x8000
  {
    if at <= p < at + size then ByteOf(v, p - at) else mem[p]
  }

  /** The memory after the low bytes of v are stored, lowest first. */
  function Stored(mem: Memory, at: nat, size: nat, v: uint32): (r: Memory)
    requires IsSize(size) && at + size <= 0x8000
    ensures forall p :: 0 <= p < 0x8000 ==> r[p] == if at <= p < at + size then ByteOf(v, p - at) else mem[p]
  {
    seq(0x8000, p requires 0 <= p < 0x8000 => ByteAfter(mem, at, size, v, p))
  }

  lemma FetchBytes(mem: Memory, at: nat, size: nat, k: nat)
    requires IsSize(size) && at + size <= 0x8000 && k < size
    ensures ByteOf(Fetch(mem, at, size), k) == mem[at + k]
  {
    hide ByteOf, Assemble;
    AssembledBytes(mem[at], if size > 1 then mem[at + 1] else 0,
                   if size > 2 then mem[at + 2] else 0, if size > 2 then mem[at + 3] else 0);
  }

  /** Reading back what was stored gives its low bytes. */
  lemma FetchStored(mem: Memory, at: nat, size: nat, v: uint32)
    requires IsSize(size) && at + size <= 0x8000
    ensures Fetch(Stored(mem, at, size, v), at, size)
         == (if size == 1 then v % 0x100 else if size == 2 then v % 0x1_0000 else v)
  {
    hide ByteOf, Assemble;
    BytesAssembled(v);
  }

  datatype Mapped = Nothing | Holding(b: byte)

  /** Virtual memory as the user program sees it: one byte, or none, at each of 2^32 addresses. */
  function VirtualByte(m: Mmu, mem: Memory, x: uint32): Mapped {
    var t := Resolve(m, FromUnsigned(x), 1, false);
    if t.Fault? then Nothing else Holding(mem[t.address])
  }

  /** No two virtual pages share a frame. */
  ghost predicate DistinctFrames(m: Mmu) {
    forall v: nat, w: nat :: v != w && LookUp(m, v).Physical? && LookUp(m, w).Physical? ==>
      m.entries[LookUp(m, v).index].physicalPage != m.entries[LookUp(m, w).index].physicalPage
  }

  /** An access that resolves has its bytes side by side, each where its own address resolves to. */
  lemma BytesTogether(m: Mmu, va: int32, size: int, writing: bool, k: nat)
    requires IsSize(size) && k < size && Resolve(m, va, size, writing).Physical?
    ensures ToUnsigned(va) + k < 0x1_0000_0000
    ensures var t := Resolve(m, FromUnsigned(ToUnsigned(va) + k), 1, false);
            t.Physical? && t.address == Resolve(m, va, size, writing).address + k
  {
    hide LookUp;
    var u := ToUnsigned(va);
    assert (u + k) / 128 == u / 128 && (u + k) % 128 == u % 128 + k;
  }

  /** Addresses that resolve to the same byte of memory are the same. */
  lemma NoAlias(m: Mmu, x: uint32, y: uint32)
    requires DistinctFrames(m)
    requires Resolve(m, FromUnsigned(x), 1, false).Physical? && Resolve(m, FromUnsigned(y), 1, false).Physical?
    requires Resolve(m, FromUnsigned(x), 1, false).address == Resolve(m, FromUnsigned(y), 1, false).address
    ensures x == y
  {
    hide LookUp;
    var i, j := LookUp(m, x / 128).index, LookUp(m, y / 128).index;
    var f, g := m.entries[i].physicalPage, m.entries[j].physicalPage;
    assert f * 128 + x % 128 == g * 128 + y % 128;
    assert f == g && x % 128 == y % 128;
    assert x / 128 == y / 128;
  }

  /** With distinct frames, a write changes exactly its own bytes of virtual memory. */
  lemma FlatWrite(m: Mmu, mem: Memory, va: int32, size: int, v: uint32, x: uint32)
    requires DistinctFrames(m) && IsSize(size) && Resolve(m, va, size, true).Physical?
    ensures var mem2 := Stored(mem, Resolve(m, va, size, true).address, size, v);
            VirtualByte(m, mem2, x) ==
            if ToUnsigned(va) <= x < ToUnsigned(va) + size then Holding(ByteOf(v, x - ToUnsigned(va)))
                 else VirtualByte(m, mem, x)
  {
    hide LookUp, Resolve, DistinctFrames, ByteOf;
    var u, at := ToUnsigned(va), Resolve(m, va, size, true).address;
    var t := Resolve(m, FromUnsigned(x), 1, false);
    if u <= x < u + size {
      BytesTogether(m, va, size, true, x - u);
    } else if t.Physical? && at <= t.address < at + size {
      BytesTogether(m, va, size, true, t.address - at);
      NoAlias(m, x, u + (t.address - at));
      assert false;
    }
  }

  /** A read gives the little-endian number of the virtual bytes at its address. */
  lemma FlatRead(m: Mmu, mem: Memory, va: int32, size: int, k: nat)
    requires IsSize(size) && Resolve(m, va, size, false).Physical? && k < size
    ensures ToUnsigned(va) + k < 0x1_0000_0000
    ensures VirtualByte(m, mem, ToUnsigned(va) + k)
         == Holding(ByteOf(Fetch(mem, Resolve(m, va, size, false).address, size), k))
  {
    hide LookUp, Resolve, ByteOf, Fetch;
    BytesTogether(m, va, size, false, k);
    FetchBytes(mem, Resolve(m, va, size, false).address, size, k);
  }
}
