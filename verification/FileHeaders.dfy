/** File headers: where a file's bytes lie on disk. An ordinary file is reached through index
    blocks (mode 1), a directory or the bitmap file directly from the header (mode 0). */
module FileHeaders {
  import opened Bytes
  import opened Storage
  import opened BitMaps

  type Direct = s: seq<int32> | |s| == 30 witness seq<int32>(30, _ => 0)
  type Header = h: seq<int32> | |h| == 32 witness seq<int32>(32, _ => 0)

  datatype AllocResult =
    | Done      // returned TRUE
    | NoSpace   // returned FALSE
    | Fault     // stopped by the disk's assertion on a sector number, or stored past dataSectors

  /** divRoundUp(fileSize, SectorSize). */
  function SectorCount(fileSize: int32): (n: int32)
    ensures fileSize >= 0 ==> 0 <= n && 128 * (n - 1) < fileSize <= 128 * n
  {
    DivRoundUp(fileSize, 128)
  }

  /** divRoundUp(numSectors, SectorSize/sizeof(int)): the unsigned divisor makes the division unsigned. */
  function IndexCount(n: int32): (r: nat)
    ensures n >= 0 ==> 32 * (r - 1) < n <= 32 * r
    ensures n < 0 ==> r > 30
  {
    DivRoundUp(ToUnsigned(n), 32)
  }

  /** The sector a header assigns to block k of its file, in the given mode; -1 past the table. */
  function SectorOf(img: Image, h: Header, mode: int, k: nat): int32 {
    if mode == 0 then
      if k < 30 then h[2 + k] else -1
    else
      if k / 32 < 30 then Words(img, h[2 + k / 32])[k % 32] else -1
  }

  /** The first count entries of the header's table: the file's index blocks, or a directory's data blocks. */
  function Entries(h: Header, count: nat): (s: seq<int32>)
    ensures count <= 30 ==> |s| == count && forall j :: 0 <= j < count ==> s[j] == h[2 + j]
  {
    if count <= 30 then h[2..2 + count] else h[2..]
  }

  /** `found` lists, in order, the results of successive Find calls that took bits0 to bits1. */
  ghost predicate FindRun(bits0: Bits, bits1: Bits, found: seq<int32>) {
    var c := |ClearSet(bits0)|;
    && (forall t :: 0 <= t < |found| ==> (found[t] == -1 <==> t >= c))
    && (forall t :: 0 <= t < |found| && found[t] != -1 ==> found[t] in ClearSet(bits0))
    && (forall t, u :: 0 <= t < u < |found| && found[t] != -1 ==> found[t] != found[u])
    && (forall x :: OnDisk(x) ==> bits1[x] == (bits0[x] || x in found))
    && |ClearSet(bits1)| == if c <= |found| then 0 else c - |found|
  }

  lemma FindRunStep(bits0: Bits, bits1: Bits, found: seq<int32>, bits2: Bits, r: int32)
    requires FindRun(bits0, bits1, found)
    requires r == -1 <==> ClearSet(bits1) == {}
    requires r == -1 ==> bits2 == bits1
    requires r != -1 ==> r in ClearSet(bits1) && bits2 == bits1[r := true]
    ensures FindRun(bits0, bits2, found + [r])
  {
    if r != -1 {
      assert ClearSet(bits2) == ClearSet(bits1) - {r};
    }
  }

  lemma NothingFound(bits: Bits)
    ensures FindRun(bits, bits, [])
  {
  }

  lemma FindFresh(bits0: Bits, bits1: Bits, found: seq<int32>, t: nat)
    requires FindRun(bits0, bits1, found) && t < |found| && found[t] != -1
    ensures found[t] !in found[..t]
  {
  }

  /** The layout that Allocate gives n data blocks: the q-th Find of each run of 33 is an index
      block, the 32 after it are the data blocks that it lists. */
  ghost predicate LaidOut(img: Image, h: Header, n: nat, indexes: nat, found: seq<int32>) {
    && |found| == n + indexes
    && (forall j :: 0 <= j < indexes && j < 30 ==> 33 * j < |found| && Entries(h, indexes)[j] == found[33 * j])
    && (forall k :: 0 <= k < n ==> k + k / 32 + 1 < |found| && SectorOf(img, h, 1, k) == found[k + k / 32 + 1])
  }

  lemma WordsKept(img0: Image, img1: Image, s: int, x: int)
    requires ChangedOnly(img0, img1, [s]) && x != s
    ensures Words(img1, x) == Words(img0, x)
  {
  }

  /** Writing one more index block extends the layout: sector s holds the block, ws its entries. */
  lemma LaidOutStep(img0: Image, h0: Header, n: nat, j: nat, found0: seq<int32>, img1: Image, s: int32, m: nat,
                    found1: seq<int32>)
    requires j < 30 && n == 32 * j && m <= 32
    requires LaidOut(img0, h0, n, j, found0)
    requires found0 + [s] <= found1 && |found1| == |found0| + 1 + m
    requires s !in found0
    requires OnDisk(s) && ChangedOnly(img0, img1, [s])
    requires forall t :: 0 <= t < m ==> Words(img1, s)[t] == found1[|found0| + 1 + t]
    ensures LaidOut(img1, h0[2 + j := s], n + m, j + 1, found1)
  {
    hide Words, ChangedOnly;
    var h1 := h0[2 + j := s];
    assert found1[33 * j] == s;
    forall k | 0 <= k < n + m
      ensures SectorOf(img1, h1, 1, k) == found1[k + k / 32 + 1]
    {
      var q := k / 32;
      if k < n {
        assert h0[2 + q] == Entries(h0, j)[q] == found0[33 * q];
        WordsKept(img0, img1, s, h0[2 + q]);
        assert SectorOf(img0, h0, 1, k) == found0[k + q + 1];
      }
    }
    forall i | 0 <= i < j + 1
      ensures Entries(h1, j + 1)[i] == found1[33 * i]
    {
      if i < j {
        assert Entries(h0, j)[i] == found0[33 * i];
      }
    }
  }

  /** When Allocate returns TRUE: given c clear sectors, n blocks fit and every index block was found. */
  predicate AllocateSucceeds(c: nat, n: int32) {
    0 <= n <= 960 && n <= c && (n > 0 ==> 33 * (IndexCount(n) - 1) < c)
  }

  /** The state of Allocate's outer loop: j index blocks are laid out in h and written. */
  ghost predicate Filling(bits0: Bits, bits: Bits, img0: Image, img: Image, h: Header, n: int32, j: nat,
                          found: seq<int32>) {
    && j <= 30 && j <= IndexCount(n) && n <= |ClearSet(bits0)|
    && FindRun(bits0, bits, found)
    && (n >= 0 ==> LaidOut(img, h, if n <= 32 * j then n else 32 * j, j, found))
    && AllOnDisk(Entries(h, j)) && (forall x :: x in Entries(h, j) ==> x in found)
    && ChangedOnly(img0, img, Entries(h, j))
  }

  /** Whatever was written so far was found clear. */
  lemma FillingClear(bits0: Bits, bits: Bits, img0: Image, img: Image, h: Header, n: int32, j: nat, found: seq<int32>)
    requires Filling(bits0, bits, img0, img, h, n, j, found)
    ensures forall x :: Sec(img, x) != Sec(img0, x) ==> x in ClearSet(bits0)
  {
    hide LaidOut, Entries;
    forall x | x in Entries(h, j)
      ensures x in ClearSet(bits0)
    {
      var t :| 0 <= t < |found| && found[t] == x;
    }
  }

  lemma TableStep(h: Header, j: nat, s: int32, h2: Header)
    requires j < 30 && h2 == h[2 + j := s]
    ensures Entries(h2, j + 1) == Entries(h, j) + [s]
  {
  }

  lemma FillingStart(bits0: Bits, img0: Image, h: Header, n: int32)
    requires n <= |ClearSet(bits0)|
    ensures Filling(bits0, bits0, img0, img0, h, n, 0, [])
  {
  }

  lemma FillingStep(bits0: Bits, bits1: Bits, img0: Image, img: Image, h: Header, n: int32, j: nat, found: seq<int32>,
                    s: int32, m: nat, h2: Header, bits2: Bits, found2: seq<int32>, img2: Image)
    requires Filling(bits0, bits1, img0, img, h, n, j, found) && j < 30 && j < IndexCount(n)
    requires FindRun(bits0, bits2, found2) && found + [s] <= found2 && |found2| == |found| + 1 + m
    requires m == if n <= 32 * j then 0 else if n < 32 * j + 32 then n - 32 * j else 32
    requires OnDisk(s) && ChangedOnly(img, img2, [s])
    requires forall t :: |found| + 1 <= t < |found2| ==> Words(img2, s)[t - |found| - 1] == found2[t]
    requires h2 == h[2 + j := s]
    ensures Filling(bits0, bits2, img0, img2, h2, n, j + 1, found2)
  {
    hide FindRun, LaidOut, Words, ChangedOnly, Entries;
    FindFresh(bits0, bits2, found2, |found|);
    assert found2[..|found|] == found;
    if n >= 0 {
      LaidOutStep(img, h, 32 * j, j, found, img2, s, m, found2);
    }
    TableStep(h, j, s, h2);
    ChangedOnlyAppend(img0, img, img2, Entries(h, j), s);
  }

  lemma FillingFind(bits0: Bits, bits1: Bits, img0: Image, img: Image, h: Header, n: int32, j: nat, found: seq<int32>,
                    bits2: Bits, s: int32)
    requires Filling(bits0, bits1, img0, img, h, n, j, found)
    requires s == -1 <==> ClearSet(bits1) == {}
    requires s == -1 ==> bits2 == bits1
    requires s != -1 ==> s in ClearSet(bits1) && bits2 == bits1[s := true]
    ensures FindRun(bits0, bits2, found + [s])
    ensures OnDisk(s) <==> s != -1
  {
    FindRunStep(bits0, bits1, found, bits2, s);
  }

  lemma FillingDone(bits0: Bits, bits: Bits, img0: Image, img: Image, h: Header, n: int32, found: seq<int32>)
    requires Filling(bits0, bits, img0, img, h, n, IndexCount(n), found)
    ensures AllocateSucceeds(|ClearSet(bits0)|, n)
    ensures FindRun(bits0, bits, found) && LaidOut(img, h, n, IndexCount(n), found)
    ensures ChangedOnly(img0, img, Entries(h, IndexCount(n)))
  {
    if n > 0 {
      var j := IndexCount(n) - 1;
      assert found[33 * j] == Entries(h, j + 1)[j] && Entries(h, j + 1)[j] in Entries(h, j + 1);
    }
  }

  lemma FillingFault(bits0: Bits, bits1: Bits, img0: Image, img: Image, h: Header, n: int32, j: nat, found: seq<int32>)
    requires Filling(bits0, bits1, img0, img, h, n, j, found) && j < IndexCount(n)
    requires j == 30 || ClearSet(bits1) == {}
    ensures !AllocateSucceeds(|ClearSet(bits0)|, n)
  {
  }

  /** The guard of Deallocate's inner loop, at iteration i. */
  predicate ClearsEntry(i: int, sectorsToClear: int) {
    i < sectorsToClear && i != 0 && i % 32 != 0
  }

  lemma InnerLoopNeverRuns(sectorsToClear: int)
    ensures !ClearsEntry(0, sectorsToClear)
  {
  }

  /** Every index block that a header lists is on the disk, and they are no more than it has room for. */
  predicate Clearable(h: Header) {
    IndexCount(h[1]) <= 30 && AllOnDisk(Entries(h, IndexCount(h[1])))
  }

  lemma NotClearable(h: Header, j: nat)
    requires j < IndexCount(h[1]) && (j == 30 || (j < 30 && !OnDisk(h[2 + j])))
    ensures !Clearable(h)
  {
    if j < 30 && IndexCount(h[1]) <= 30 {
      assert Entries(h, IndexCount(h[1]))[j] == h[2 + j];
    }
  }

  lemma AllEntries(h: Header, j: nat)
    requires j == IndexCount(h[1]) <= 30 && AllOnDisk(h[2..2 + j])
    ensures Clearable(h)
  {
  }

  /** How many sectors a directory's header lists. */
  function DirectCount(n: int32): nat {
    if n < 0 then 0 else n
  }

  /** The sectors that a directory's header lists are different ones, all marked, and no more than it has room for. */
  predicate TestsHold(bits: Bits, h: Header) {
    var n, data := h[1], h[2..];
    && n <= 30
    && (forall k :: 0 <= k < n ==> OnDisk(data[k]) && bits[data[k]])
    && (forall k, l :: 0 <= k < l < n ==> data[k] != data[l])
  }

  lemma NothingCleared(bits: Bits, h: Header)
    ensures Cleared(bits, Entries(h, 0)) == bits
  {
  }

  lemma StillMarkedThen(bits0: Bits, h: Header, data: Direct, i: nat)
    requires i < 30 && data == h[2..] && OnDisk(data[i])
    ensures Cleared(bits0, Entries(h, i))[data[i]] <==> bits0[data[i]] && forall k :: 0 <= k < i ==> data[k] != data[i]
  {
    var e := Entries(h, i);
    assert forall k :: 0 <= k < i ==> e[k] == data[k];
    assert forall k :: 0 <= k < i ==> data[k] in e;
  }

  lemma ClearedStep(bits: Bits, h: Header, j: nat)
    requires j < 30 && OnDisk(h[2 + j])
    ensures Cleared(bits, Entries(h, j))[h[2 + j] := false] == Cleared(bits, Entries(h, j + 1))
  {
    TableStep(h, j, h[2 + j], h);
  }

  class FileHeader {
    var numBytes: int32
    var numSectors: int32
    var dataSectors: Direct

    /** A fresh header holds whatever its memory held. */
    constructor () {
      var d: Direct := *;
      numBytes, numSectors, dataSectors := *, *, d;
    }

    /** The header as the 32 integers of its sector. */
    function AsWords(): Header
      reads this
    {
      var sizes: seq<int32> := [numBytes, numSectors];
      sizes + dataSectors
    }

    method FetchFrom(disk: SynchDisk, sector: int)
      requires OnDisk(sector)
      modifies this
      ensures AsWords() == Words(disk.sectors, sector)
    {
      var data := disk.ReadSector(sector);
      var ws := DecodeWords(data);
      numBytes, numSectors, dataSectors := ws[0], ws[1], ws[2..];
    }

    method WriteBack(disk: SynchDisk, sector: int)
      requires OnDisk(sector)
      modifies disk
      ensures ChangedOnly(old(disk.sectors), disk.sectors, [sector])
      ensures Words(disk.sectors, sector) == AsWords()
    {
      WordsRoundTrip(AsWords());
      disk.WriteSector(sector, EncodeWords(AsWords()));
    }

    /** The inner loop of Allocate: one index block's worth of data sectors, laid over this header. */
    method FillIndexBlock(freeMap: BitMap, sectorsToFill: int, ghost bits0: Bits, ghost before: seq<int32>)
      returns (ghost found: seq<int32>)
      requires FindRun(bits0, freeMap.bits, before)
      modifies this, freeMap
      ensures FindRun(bits0, freeMap.bits, found)
      ensures before <= found
      ensures |found| - |before| == if sectorsToFill <= 0 then 0 else if sectorsToFill < 32 then sectorsToFill else 32
      ensures forall t :: |before| <= t < |found| ==> AsWords()[t - |before|] == found[t]
    {
      hide FindRun;
      found := before;
      var i := 0;
      while i < sectorsToFill && i != 32
        invariant 0 <= i <= 32 && (0 < i ==> i <= sectorsToFill)
        invariant FindRun(bits0, freeMap.bits, found)
        invariant before <= found && |found| == |before| + i
        invariant forall t :: |before| <= t < |found| ==> AsWords()[t - |before|] == found[t]
      {
        ghost var bits1 := freeMap.bits;
        var s := freeMap.Find();
        FindRunStep(bits0, bits1, found, freeMap.bits, s);
        found := found + [s];
        if i == 0 {
          numBytes := s;
        } else if i == 1 {
          numSectors := s;
        } else {
          dataSectors := dataSectors[i - 2 := s];
        }
        i := i + 1;
      }
    }

    method Allocate(disk: SynchDisk, freeMap: BitMap, fileSize: int32) returns (r: AllocResult, ghost found: seq<int32>)
      modifies this, disk, freeMap
      ensures r == NoSpace <==> |ClearSet(old(freeMap.bits))| < SectorCount(fileSize)
      ensures r == Done <==> AllocateSucceeds(|ClearSet(old(freeMap.bits))|, SectorCount(fileSize))
      ensures r == NoSpace ==> freeMap.bits == old(freeMap.bits) && disk.sectors == old(disk.sectors)
      ensures forall x :: Sec(disk.sectors, x) != Sec(old(disk.sectors), x) ==> x in ClearSet(old(freeMap.bits))
      ensures r == Done ==>
                && numBytes == fileSize && numSectors == SectorCount(fileSize)
                && FindRun(old(freeMap.bits), freeMap.bits, found)
                && LaidOut(disk.sectors, AsWords(), numSectors, IndexCount(numSectors), found)
                && ChangedOnly(old(disk.sectors), disk.sectors, Entries(AsWords(), IndexCount(numSectors)))
    {
      hide Filling, FindRun, LaidOut, ChangedOnly, Words, OnDisk, Sec, ClearSet, IndexCount, SectorCount, Entries;
      numBytes := fileSize;
      numSectors := SectorCount(fileSize);
      found := [];
      var clear := freeMap.NumClear();
      if clear < numSectors {
        return NoSpace, found;
      }
      ghost var bits0, img0, n := freeMap.bits, disk.sectors, numSectors;
      FillingStart(bits0, img0, AsWords(), n);
      var sectorsToFill: int := numSectors;
      var j := 0;
      while j < IndexCount(numSectors)
        invariant 0 <= j <= 30 && j <= IndexCount(n)
        invariant numBytes == fileSize && numSectors == n
        invariant sectorsToFill == n - 32 * j
        invariant Filling(bits0, freeMap.bits, img0, disk.sectors, AsWords(), n, j, found)
      {
        ghost var bits1, img, h, before := freeMap.bits, disk.sectors, AsWords(), found;
        FillingClear(bits0, bits1, img0, img, h, n, j, found);
        if j == 30 {
          FillingFault(bits0, bits1, img0, img, h, n, j, found);
          return Fault, found;
        }
        var sectorArray := new FileHeader();
        var s := freeMap.Find();
        if s == -1 {
          FillingFault(bits0, bits1, img0, img, h, n, j, found);
        }
        FillingFind(bits0, bits1, img0, img, h, n, j, found, freeMap.bits, s);
        dataSectors := dataSectors[j := s];
        found := sectorArray.FillIndexBlock(freeMap, sectorsToFill, bits0, found + [s]);
        sectorsToFill := sectorsToFill - 32;
        if !OnDisk(dataSectors[j]) {
          return Fault, found;
        }
        sectorArray.WriteBack(disk, dataSectors[j]);
        assert AsWords() == h[2 + j := s];
        FillingStep(bits0, bits1, img0, img, h, n, j, before, s, |found| - |before| - 1, AsWords(), freeMap.bits, found,
            disk.sectors);
        j := j + 1;
      }
      FillingClear(bits0, freeMap.bits, img0, disk.sectors, AsWords(), n, IndexCount(n), found);
      FillingDone(bits0, freeMap.bits, img0, disk.sectors, AsWords(), n, found);
      r := Done;
    }

    /** A directory's data blocks are listed in the header itself. */
    method AllocateDirectory(freeMap: BitMap, dirSize: int32) returns (r: AllocResult, ghost found: seq<int32>)
      modifies this, freeMap
      ensures r == NoSpace <==> |ClearSet(old(freeMap.bits))| < SectorCount(dirSize)
      ensures r == Done <==> SectorCount(dirSize) <= |ClearSet(old(freeMap.bits))| && SectorCount(dirSize) <= 30
      ensures r == NoSpace ==> freeMap.bits == old(freeMap.bits)
      ensures r == Done ==> numBytes == dirSize && numSectors == SectorCount(dirSize)
                            && FindRun(old(freeMap.bits), freeMap.bits, found)
                            && found == Entries(AsWords(), if numSectors < 0 then 0 else numSectors)
    {
      hide FindRun;
      numBytes := dirSize;
      numSectors := SectorCount(dirSize);
      found := [];
      NothingFound(freeMap.bits);
      var clear := freeMap.NumClear();
      if clear < numSectors {
        return NoSpace, found;
      }
      ghost var bits0 := freeMap.bits;
      var i := 0;
      while i < numSectors
        invariant 0 <= i <= 30 && (i == 0 || i <= numSectors) && numSectors == SectorCount(dirSize)
        invariant numBytes == dirSize
        invariant FindRun(bits0, freeMap.bits, found)
        invariant found == dataSectors[..i]
      {
        ghost var bits1 := freeMap.bits;
        var s := freeMap.Find();
        if i == 30 {
          return Fault, found;
        }
        FindRunStep(bits0, bits1, found, freeMap.bits, s);
        found := found + [s];
        dataSectors := dataSectors[i := s];
        i := i + 1;
      }
      r := Done;
    }

    /** As written: the inner loop, which would clear the data sectors, never runs. It fails, on the disk's or the
        bitmap's assertion or past the header's table, exactly when an index block is not there. */
    method Deallocate(disk: SynchDisk, freeMap: BitMap) returns (ok: bool)
      modifies freeMap
      ensures ok <==> Clearable(AsWords())
      ensures ok ==> freeMap.bits == Cleared(old(freeMap.bits), Entries(AsWords(), IndexCount(AsWords()[1])))
    {
      hide Cleared, Words, DecodeWords, Entries, IndexCount;
      ghost var bits0, h, n := freeMap.bits, AsWords(), numSectors;
      NothingCleared(bits0, h);
      var sectorsToClear: int := numSectors;
      var j := 0;
      while j < IndexCount(numSectors)
        invariant 0 <= j <= IndexCount(n) && j <= 30
        invariant AllOnDisk(dataSectors[..j])
        invariant freeMap.bits == Cleared(bits0, Entries(h, j))
      {
        var sectorArray := new FileHeader();
        if j == 30 || !OnDisk(dataSectors[j]) {
          NotClearable(h, j);
          return false;
        }
        sectorArray.FetchFrom(disk, dataSectors[j]);
        InnerLoopNeverRuns(sectorsToClear);
        sectorsToClear := sectorsToClear - 32;
        ClearedStep(bits0, h, j);
        freeMap.Clear(dataSectors[j]);
        j := j + 1;
      }
      assert dataSectors[..j] == h[2..2 + j];
      AllEntries(h, j);
      ok := true;
    }

    /** It fails, on its own assertion or past the header's table, exactly when some sector listed is not marked
        any more when its turn comes. */
    method DeallocateDirectory(freeMap: BitMap) returns (ok: bool)
      modifies freeMap
      ensures ok <==> TestsHold(old(freeMap.bits), AsWords())
      ensures ok ==> freeMap.bits == Cleared(old(freeMap.bits), Entries(AsWords(), DirectCount(AsWords()[1])))
    {
      hide Cleared, Entries;
      ghost var bits0, h := freeMap.bits, AsWords();
      NothingCleared(bits0, h);
      assert h[2..] == dataSectors;
      var i := 0;
      while i < numSectors
        invariant 0 <= i <= DirectCount(numSectors) && i <= 30
        invariant forall k :: 0 <= k < i ==> OnDisk(dataSectors[k]) && bits0[dataSectors[k]]
        invariant forall k, l :: 0 <= k < l < i ==> dataSectors[k] != dataSectors[l]
        invariant freeMap.bits == Cleared(bits0, Entries(h, i))
      {
        if i == 30 || !OnDisk(dataSectors[i]) {
          return false;
        }
        StillMarkedThen(bits0, h, dataSectors, i);
        var marked := freeMap.Test(dataSectors[i]);
        if !marked {
          return false;
        }
        ClearedStep(bits0, h, i);
        freeMap.Clear(dataSectors[i]);
        i := i + 1;
      }
      ok := true;
    }

    method ByteToSector(disk: SynchDisk, offset: int, mode: int) returns (sector: int32)
      requires offset >= 0
      requires if mode == 0 then offset / 128 < 30
               else offset / 128 < 960 && OnDisk(AsWords()[2 + offset / 128 / 32])
      ensures sector == SectorOf(disk.sectors, AsWords(), mode, offset / 128)
    {
      if mode == 0 {
        return dataSectors[offset / 128];
      }
      var newHdr := new FileHeader();
      var dataSectorNumber := offset / 128;
      var entrySector := dataSectorNumber / 32;
      var sectorOffset := dataSectorNumber % 32;
      newHdr.FetchFrom(disk, dataSectors[entrySector]);
      return newHdr.AsWords()[sectorOffset];
    }

    function FileLength(): int32
      reads this
    {
      numBytes
    }
  }
}
