/** Translation told by the entries alone: when an access goes through and where to, and which exception it meets
    otherwise. */
module TranslationLaws {
  import opened Bytes
  import opened BitOps
  import opened Translation
  import opened Instructions
  import opened MachineSemantics

  /** Entry k is the one for the page: its place in a page table, the first that names it in a TLB. */
  ghost predicate Maps(m: Mmu, page: nat, k: nat) {
    && k < |m.entries| && m.entries[k].valid
    && match m
       case PageTable(entries) => k == page
       case Tlb(entries) =>
         entries[k].virtualPage == page && forall j :: 0 <= j < k ==>
             !(entries[j].valid && entries[j].virtualPage == page)
  }

  ghost predicate Unmapped(m: Mmu, page: nat) {
    forall k: nat :: !Maps(m, page, k)
  }

  predicate Aligned(u: nat, size: int) {
    (size == 2 ==> u % 2 == 0) && (size == 4 ==> u % 4 == 0)
  }

  /** The page is past the end of a page table. */
  predicate PastTable(m: Mmu, page: nat) {
    m.PageTable? && page >= |m.entries|
  }

  lemma MapsOnce(m: Mmu, page: nat, k: nat, l: nat)
    requires Maps(m, page, k) && Maps(m, page, l)
    ensures k == l
  {
  }

  lemma LookUpMaps(m: Mmu, page: nat)
    ensures match LookUp(m, page)
            case Physical(at, k) => at == 0 && Maps(m, page, k)
            case Fault(e) => Unmapped(m, page) && e == if PastTable(m, page) then AddressError else PageFault
  {
  }

  /** When an access goes through, and where to: it is aligned, an entry maps its page, that entry does not forbid
      it, and the frame exists; it then goes to its own offset in that frame. */
  ghost predicate GoesTo(m: Mmu, u: nat, size: int, writing: bool, at: nat, k: nat) {
    && Aligned(u, size) && Maps(m, u / 128, k)
    && !(m.entries[k].readOnly && writing) && m.entries[k].physicalPage < 256
    && at == m.entries[k].physicalPage * 128 + u % 128
  }

  /** The exceptions, in their order: a misaligned access or a page past the table; a page that nothing maps; a write
      to a page that is only to be read; a frame that does not exist. */
  ghost predicate MeetsFault(m: Mmu, u: nat, size: int, writing: bool, e: ExceptionType) {
    var there := Aligned(u, size) && !PastTable(m, u / 128);
    match e
    case AddressError => !there
    case PageFault => there && Unmapped(m, u / 128)
    case ReadOnly => there && writing && exists k: nat :: Maps(m, u / 128, k) && m.entries[k].readOnly
    case BusError =>
      there && exists k: nat ::
        Maps(m, u / 128, k) && !(m.entries[k].readOnly && writing) && m.entries[k].physicalPage >= 256
    case _ => false
  }

  lemma ResolvesExactly(m: Mmu, va: int32, size: int, writing: bool, at: nat, k: nat)
    requires IsSize(size)
    ensures Resolve(m, va, size, writing) == Physical(at, k) <==> GoesTo(m, ToUnsigned(va), size, writing, at, k)
  {
    hide LookUp, Maps;
    var u := ToUnsigned(va);
    LookUpMaps(m, u / 128);
    if Maps(m, u / 128, k) && LookUp(m, u / 128).Physical? {
      MapsOnce(m, u / 128, k, LookUp(m, u / 128).index);
    }
  }

  lemma FaultsExactly(m: Mmu, va: int32, size: int, writing: bool, e: ExceptionType)
    requires IsSize(size)
    ensures Resolve(m, va, size, writing) == Fault(e) <==> MeetsFault(m, ToUnsigned(va), size, writing, e)
  {
    hide LookUp, Maps;
    var u := ToUnsigned(va);
    LookUpMaps(m, u / 128);
    forall k: nat | LookUp(m, u / 128).Physical? && Maps(m, u / 128, k)
      ensures k == LookUp(m, u / 128).index
    {
      MapsOnce(m, u / 128, k, LookUp(m, u / 128).index);
    }
  }

  /** Both together: the whole answer. */
  ghost predicate TranslatesTo(m: Mmu, u: nat, size: int, writing: bool, t: Translated) {
    match t
    case Physical(at, k) => GoesTo(m, u, size, writing, at, k)
    case Fault(e) => MeetsFault(m, u, size, writing, e)
  }

  lemma TranslatedExactly(m: Mmu, va: int32, size: int, writing: bool, t: Translated)
    requires IsSize(size)
    ensures t == Resolve(m, va, size, writing) <==> TranslatesTo(m, ToUnsigned(va), size, writing, t)
  {
    hide Resolve, GoesTo, MeetsFault;
    match t
    case Physical(at, k) => ResolvesExactly(m, va, size, writing, at, k);
    case Fault(e) => FaultsExactly(m, va, size, writing, e);
  }

  /** The page of address x is mapped to be read only. */
  ghost predicate ReadOnlyPage(m: Mmu, x: uint32) {
    exists k: nat :: Maps(m, x / 128, k) && m.entries[k].readOnly
  }

  /** A write that goes through leaves every byte of every read-only page as it was. */
  lemma ReadOnlyKept(m: Mmu, mem: Memory, va: int32, size: int, v: uint32, x: uint32)
    requires DistinctFrames(m) && IsSize(size) && Resolve(m, va, size, true).Physical? && ReadOnlyPage(m, x)
    ensures VirtualByte(m, Stored(mem, Resolve(m, va, size, true).address, size, v), x) == VirtualByte(m, mem, x)
  {
    hide Resolve, DistinctFrames, VirtualByte, Stored;
    FlatWrite(m, mem, va, size, v, x);
    var u, t := ToUnsigned(va), Resolve(m, va, size, true);
    ResolvesExactly(m, va, size, true, t.address, t.index);
    var k: nat :| Maps(m, x / 128, k) && m.entries[k].readOnly;
    if u <= x < u + size {
      SamePage(u, x, size);
      MapsOnce(m, u / 128, k, t.index);
      assert false;
    }
  }

  lemma SamePage(u: nat, x: nat, size: int)
    requires IsSize(size) && Aligned(u, size) && u <= x < u + size
    ensures x / 128 == u / 128
  {
    var page, offset := u / 128, u % 128;
    OffsetAligned(u, page, offset, size);
    PageOf(page, offset + (x - u));
  }

  lemma OffsetAligned(u: nat, page: nat, offset: nat, size: int)
    requires IsSize(size) && Aligned(u, size) && u == 128 * page + offset && offset < 128
    ensures offset + size <= 128
  {
    if size == 2 {
      assert offset == 2 * (u / 2 - 64 * page);
    } else if size == 4 {
      assert offset == 4 * (u / 4 - 32 * page);
    }
  }

  lemma PageOf(page: nat, offset: nat)
    requires offset < 128
    ensures (128 * page + offset) / 128 == page
  {
  }

  /** No instruction changes a byte of a page that is only to be read. */
  lemma StepKeepsReadOnly(m: Mmu, mem: Memory, r: Registers, x: uint32)
    requires Sound(r) && DistinctFrames(m) && ReadOnlyPage(m, x) && !Step(m, mem, r).Stopped?
    ensures VirtualByte(m, Step(m, mem, r).mem, x) == VirtualByte(m, mem, x)
  {
    hide Resolve, DistinctFrames, ReadOnlyPage, VirtualByte, Stored, Meaning, Fetch, Decode, Retire, Trapped;
    var t := Resolve(m, r[34], 4, false);
    if t.Physical? {
      var i := Decode(Fetch(mem, t.address, 4));
      match Meaning(i, OperandsOf(i, r))
      case Store(kind, addr, v) =>
        var before, to := Resolve(m, addr, kind.Size(), false), Resolve(m, addr, kind.Size(), true);
        if to.Physical? && (kind.ReadsFirst() ==> before.Physical?) {
          var was := if kind.ReadsFirst() then Fetch(mem, before.address, 4) else 0;
          ReadOnlyKept(m, mem, addr, kind.Size(), kind.Value(v, was), x);
        }
      case _ =>
    }
  }
}
