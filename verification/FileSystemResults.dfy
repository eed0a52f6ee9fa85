/** What the file system's operations promise, and why each promise is kept. */
module FileSystemResults {
  import opened Bytes
  import opened Storage
  import opened BitMaps
  import opened FileHeaders
  import opened FileHeaderTheorems
  import opened OpenFiles
  import opened Directories
  import opened DirectoryTree
  import opened Ownership
  import opened FileSystemState

  datatype Outcome =
    | Created  // returned TRUE
    | Refused  // returned FALSE
    | Stopped  // stopped inside Allocate by a failed assertion

  datatype Call<T> =
    | Returned(value: T)
    | Halted  // stopped by a failed assertion, or past the end of a header's table

  predicate HasFreeSlot(table: Table) {
    exists i :: 2 <= i < |table| && !table[i].InUse()
  }

  /** Create got past the name, the header sector and the directory slot. */
  predicate GetsToAllocate(table: Table, bits: Bits, name: CString) {
    Key(name) !in Names(table) && ClearSet(bits) != {} && HasFreeSlot(table)
  }

  /** Create refused for want of data sectors, after the name had been entered in the table in memory. */
  predicate RefusedLate(table: Table, bits: Bits, name: CString, initialSize: int32) {
    GetsToAllocate(table, bits, name) && |ClearSet(bits)| - 1 < SectorCount(initialSize)
  }

  function CreateOutcome(table: Table, bits: Bits, name: CString, initialSize: int32): Outcome {
    if !GetsToAllocate(table, bits, name) || RefusedLate(table, bits, name, initialSize) then Refused
    else if AllocateSucceeds(|ClearSet(bits)| - 1, SectorCount(initialSize)) then Created
    else Stopped
  }

  /** Create went through, and there was room for the index blocks too. */
  predicate CreatedWhole(table: Table, bits: Bits, name: CString, initialSize: int32) {
    && CreateOutcome(table, bits, name, initialSize) == Created
    && Fits(|ClearSet(bits)| - 1, SectorCount(initialSize))
  }

  /** Directory and bitmap are written, every other node kept, and no sector unowned before has changed. */
  ghost predicate Flushed(img: Image, cur: Image, t: Tree, pl: Places, t0: Tree, pl0: Places, u: Table, bits: Bits) {
    && |u| == 10 && Kept(img, cur, t, pl, {u[0].sector as int, FREE_MAP_SECTOR})
    && DirTable(cur, u[0].sector) == u && MapBits(cur) == bits
    && forall x :: x !in pl0 ==> Sec(cur, x) == Sec(img, x)
  }

  lemma FlushElsewhere(img: Image, img3: Image, cur: Image, t0: Tree, pl0: Places, d: int)
    requires OwnedOk(img, t0, pl0) && d in t0.dirs && Words(img3, FREE_MAP_SECTOR) == Words(img, FREE_MAP_SECTOR)
    requires ChangedOnly(img, img3, Claims(img, Words(img, d), 0))
    requires ChangedOnly(img3, cur, Claims(img3, Words(img3, FREE_MAP_SECTOR), 0))
    ensures forall x :: x !in pl0 ==> Sec(cur, x) == Sec(img, x)
  {
    hide Words, OwnedOk, Claims, Kept, ChangedOnly, Owners, WellFormed;
    DirIsOwner(img, t0, pl0, d);
    DirFile(img, t0, pl0, d);
    Elsewhere(img, img3, t0, pl0, d);
    KeptData(img, img3, t0, pl0, d);
    Elsewhere(img3, cur, t0, pl0, FREE_MAP_SECTOR);
  }

  /** The bitmap file is no node of the tree. */
  lemma NodesIsolated(img: Image, cur: Image, t: Tree, pl: Places, d: int)
    requires Kept(img, cur, t, pl, {d, FREE_MAP_SECTOR})
    ensures Isolated(img, cur, t, {d})
  {
    hide FileAt, DirTable, PlaceOk, Words;
    KeptIsolated(img, cur, t, pl, {d, FREE_MAP_SECTOR});
  }

  lemma DirFile(img: Image, t: Tree, pl: Places, d: int)
    requires OwnedOk(img, t, pl) && d in t.dirs
    ensures OnDisk(d) && d in Owners(t) && ModeOf(t.files, d) == 0 && Words(img, d)[1] >= 0
    ensures WellFormed(img, Words(img, d), 0) && Length(Words(img, d)) == 160
    ensures Claims(img, Words(img, d), 0) == Blocks(img, Words(img, d), 0, Words(img, d)[1])
  {
    hide Words, WellFormed, PlaceOk;
    OwnerFacts(img, t, pl, d);
  }

  lemma DirStored(cur: Image, d: int, h: Header, table: Table)
    requires Length(h) == 160 && DecodeTable(Content(cur, h, 0)) == table && h == Words(cur, d)
    ensures DirTable(cur, d) == table
  {
    hide Content, DecodeTable, Words;
  }

  const FRESH_TREE := Tree({}, {ROOT_SECTOR}, map[], map[ROOT_SECTOR := 0])

  function Below(n: nat): (s: set<int>)
    ensures |s| == n && forall x :: x in s <==> 0 <= x < n
  {
    if n == 0 then {} else Below(n - 1) + {n - 1}
  }

  /** A new bitmap, with the two well-known sectors marked, has all the others clear. */
  lemma BlankBits(bits: Bits)
    requires bits == seq(NUM_SECTORS, _ => false)
    ensures |ClearSet(bits[0 := true][1 := true])| == 1022
  {
    hide Below;
    var all, wellKnown := Below(NUM_SECTORS), {0, 1};
    assert ClearSet(bits[0 := true][1 := true]) == all - wellKnown;
    assert all == (all - wellKnown) + wellKnown;
  }

  lemma MountFacts(img: Image, t: Tree, pl: Places)
    requires DiskOk(img, t, pl)
    ensures OnDisk(ROOT_SECTOR) && WellFormed(img, Words(img, ROOT_SECTOR), 0) && Length(Words(img, ROOT_SECTOR)) == 160
    ensures InStep(img, t, DirTable(img, ROOT_SECTOR)) && DirTable(img, ROOT_SECTOR)[0].sector == ROOT_SECTOR
    ensures DirTable(img, ROOT_SECTOR) == DecodeTable(Content(img, Words(img, ROOT_SECTOR), 0))
    ensures Legible(img, Words(img, ROOT_SECTOR), 0, 0, 160)
  {
    hide Words, WellFormed, PlaceOk, Content, DecodeTable;
    DirFile(img, t, pl, ROOT_SECTOR);
    WellFormedIsLegible(img, Words(img, ROOT_SECTOR), 0, 0, 160);
    assert DirOk(Tables(img, t.dirs)[ROOT_SECTOR], ROOT_SECTOR, t);
  }

  function FreshPlaces(img: Image): Places {
    PlacesOf(FREE_MAP_SECTOR, Owned(img, FREE_MAP_SECTOR, 0)) + PlacesOf(ROOT_SECTOR, Owned(img, ROOT_SECTOR, 0))
  }

  lemma SectorCounts()
    ensures SectorCount(128) == 1 && SectorCount(160) == 2
  {
  }

  lemma DirectWellFormed(img: Image, h: Header, n: nat)
    requires n <= 30 && h[1] == n == SectorCount(h[0]) && Distinct(Entries(h, n)) && AllOnDisk(Entries(h, n))
    ensures WellFormed(img, h, 0) && Claims(img, h, 0) == Entries(h, n)
  {
    assert Blocks(img, h, 0, n) == Entries(h, n);
  }

  /** After a format the bitmap file and the root directory own five different sectors, the only marked ones. */
  lemma FormattedOwners(img: Image, bits0: Bits, bits1: Bits, bits2: Bits, mh: Header, dh: Header)
    requires (forall x :: OnDisk(x) ==> bits0[x] == (x < 2)) && |ClearSet(bits0)| == 1022
    requires mh[0] == 128 && mh[1] == 1 && FindRun(bits0, bits1, Entries(mh, 1)) && Words(img, FREE_MAP_SECTOR) == mh
    requires dh[0] == 160 && dh[1] == 2 && FindRun(bits1, bits2, Entries(dh, 2)) && Words(img, ROOT_SECTOR) == dh
    ensures OwnedOk(img, FRESH_TREE, FreshPlaces(img))
    ensures AllMarked(bits2, FreshPlaces(img)) && NoLeak(bits2, FreshPlaces(img))
  {
    hide Words, WellFormed, PlacesOf, Claims, Entries, FindRun, PlaceOk, OwnedOk, FreshPlaces;
    SectorCounts();
    FormattedApart(bits0, bits1, bits2, Entries(mh, 1), Entries(dh, 2), mh, dh);
    DirectWellFormed(img, mh, 1);
    DirectWellFormed(img, dh, 2);
    TwoOwners(img, Entries(mh, 1), Entries(dh, 2));
    FormattedMarks(img, bits2, Entries(mh, 1), Entries(dh, 2));
  }

  /** The sectors found for the two are different ones from 2 on. */
  lemma FormattedApart(bits0: Bits, bits1: Bits, bits2: Bits, a: seq<int32>, b: seq<int32>, mh: Header, dh: Header)
    requires (forall x :: OnDisk(x) ==> bits0[x] == (x < 2)) && |ClearSet(bits0)| == 1022
    requires mh[1] == 1 == SectorCount(mh[0]) && a == Entries(mh, 1) && FindRun(bits0, bits1, a)
    requires dh[1] == 2 == SectorCount(dh[0]) && b == Entries(dh, 2) && FindRun(bits1, bits2, b)
    ensures Distinct(a) && Distinct(b) && forall x :: x in a ==> x !in b
    ensures (forall x :: x in a ==> OnDisk(x) && x >= 2) && (forall x :: x in b ==> OnDisk(x) && x >= 2)
    ensures forall x :: OnDisk(x) ==> (bits2[x] <==> x < 2 || x in a || x in b)
  {
    hide Entries, FindRun, Cleared, ClearSet;
    FoundOne(bits0, bits1, mh);
    DeallocateDirectoryUndoesAllocate(bits0, bits1, mh, 1, Cleared(bits1, a));
    DeallocateDirectoryUndoesAllocate(bits1, bits2, dh, 2, Cleared(bits2, b));
  }

  lemma FormattedMarks(img: Image, bits2: Bits, a: seq<int32>, b: seq<int32>)
    requires Owned(img, FREE_MAP_SECTOR, 0) == [FREE_MAP_SECTOR] + a && Owned(img, ROOT_SECTOR, 0) == [ROOT_SECTOR] + b
    requires (forall x :: x in a ==> OnDisk(x)) && (forall x :: x in b ==> OnDisk(x))
    requires forall x :: OnDisk(x) ==> (bits2[x] <==> x < 2 || x in a || x in b)
    ensures AllMarked(bits2, FreshPlaces(img)) && NoLeak(bits2, FreshPlaces(img))
  {
    hide Owned, PlacesOf;
  }

  lemma TwoOwners(img: Image, a: seq<int>, b: seq<int>)
    requires Words(img, FREE_MAP_SECTOR)[0] == 128 && Words(img, ROOT_SECTOR)[0] == 160
    requires WellFormed(img, Words(img, FREE_MAP_SECTOR), 0) && Claims(img, Words(img, FREE_MAP_SECTOR), 0) == a
    requires WellFormed(img, Words(img, ROOT_SECTOR), 0) && Claims(img, Words(img, ROOT_SECTOR), 0) == b
    requires Distinct(a) && Distinct(b) && (forall x :: x in a ==> x !in b)
    requires (forall x :: x in a ==> OnDisk(x) && x >= 2) && (forall x :: x in b ==> OnDisk(x) && x >= 2)
    ensures OwnedOk(img, FRESH_TREE, FreshPlaces(img))
    ensures Owned(img, FREE_MAP_SECTOR, 0) == [FREE_MAP_SECTOR] + a && Owned(img, ROOT_SECTOR, 0) == [ROOT_SECTOR] + b
  {
    hide Words, WellFormed, PlacesOf, Claims, PlaceOk;
    NoOwners(img);
    AddOwner(img, map[], {}, {}, FREE_MAP_SECTOR, 0, {});
    var pl0 := PlacesOf(FREE_MAP_SECTOR, Owned(img, FREE_MAP_SECTOR, 0));
    assert map[] + pl0 == pl0 && {} + {FREE_MAP_SECTOR} == {FREE_MAP_SECTOR};
    AddOwner(img, pl0, {}, {FREE_MAP_SECTOR}, ROOT_SECTOR, 0, {});
    assert {FREE_MAP_SECTOR} + {ROOT_SECTOR} == Owners(FRESH_TREE);
  }

  lemma NoOwners(img: Image)
    ensures PlaceOk(img, map[], {}, {})
  {
  }

  lemma FoundOne(bits0: Bits, bits1: Bits, mh: Header)
    requires |ClearSet(bits0)| == 1022 && FindRun(bits0, bits1, Entries(mh, 1))
    ensures |ClearSet(bits1)| == 1021
  {
  }

  lemma FormattedFiles(img: Image, t: Tree, pl: Places)
    requires OwnedOk(img, t, pl) && t == FRESH_TREE
    ensures WellFormed(img, Words(img, FREE_MAP_SECTOR), 0) && Length(Words(img, FREE_MAP_SECTOR)) == 128
    ensures Words(img, FREE_MAP_SECTOR)[1] >= 0
    ensures Claims(img, Words(img, FREE_MAP_SECTOR), 0)
         == Blocks(img, Words(img, FREE_MAP_SECTOR), 0, Words(img, FREE_MAP_SECTOR)[1])
    ensures FREE_MAP_SECTOR in Owners(t) && ROOT_SECTOR in Owners(t) && ModeOf(t.files, FREE_MAP_SECTOR) == 0
    ensures ModeOf(t.files, ROOT_SECTOR) == 0
    ensures OnDisk(FREE_MAP_SECTOR) && OnDisk(ROOT_SECTOR) && Words(img, ROOT_SECTOR)[1] >= 0
    ensures WellFormed(img, Words(img, ROOT_SECTOR), 0) && Length(Words(img, ROOT_SECTOR)) == 160
    ensures Claims(img, Words(img, ROOT_SECTOR), 0)
         == Blocks(img, Words(img, ROOT_SECTOR), 0, Words(img, ROOT_SECTOR)[1])
  {
    hide Words, WellFormed, PlaceOk;
    OwnerFacts(img, t, pl, FREE_MAP_SECTOR);
    DirFile(img, t, pl, ROOT_SECTOR);
  }

  lemma FormatDone(img: Image, cur: Image, pl: Places, bits: Bits, h: Header, table: Table)
    requires Length(h) == 160 && DecodeTable(Content(cur, h, 0)) == table && h == Words(img, ROOT_SECTOR)
    requires Kept(img, cur, FRESH_TREE, pl, {ROOT_SECTOR}) && MapBits(img) == bits && AllMarked(bits, pl)
    requires |table| == 10 && (forall i :: 0 <= i < 10 ==> table[i].InUse() == (i < 2))
    requires forall i :: 0 <= i < 2 ==>
              table[i].IsDir() && Key(table[i].name) == Dots(i + 1)
              && table[i].sector == ROOT_SECTOR
    ensures DiskOk(cur, FRESH_TREE, pl) && InStep(cur, FRESH_TREE, table) && MapBits(cur) == bits
    ensures Words(cur, FREE_MAP_SECTOR) == Words(img, FREE_MAP_SECTOR)
  {
    hide Words, Content, DecodeTable, MapBits, PlaceOk;
    MapBitsKept(img, cur, FRESH_TREE, pl, {ROOT_SECTOR});
    HeaderKept(img, cur, FRESH_TREE, pl, {ROOT_SECTOR}, FREE_MAP_SECTOR);
    HeaderKept(img, cur, FRESH_TREE, pl, {ROOT_SECTOR}, ROOT_SECTOR);
    DirStored(cur, ROOT_SECTOR, h, table);
    assert Tables(cur, FRESH_TREE.dirs) == map[ROOT_SECTOR := table];
    FormattedTree(table);
  }

  lemma MapFile(img: Image, t: Tree, pl: Places)
    requires OwnedOk(img, t, pl)
    ensures FREE_MAP_SECTOR in Owners(t) && ModeOf(t.files, FREE_MAP_SECTOR) == 0 && Words(img, FREE_MAP_SECTOR)[1] >= 0
    ensures WellFormed(img, Words(img, FREE_MAP_SECTOR), 0) && Length(Words(img, FREE_MAP_SECTOR)) == 128
    ensures Claims(img, Words(img, FREE_MAP_SECTOR), 0)
         == Blocks(img, Words(img, FREE_MAP_SECTOR), 0, Words(img, FREE_MAP_SECTOR)[1])
  {
    hide Words, WellFormed, PlaceOk;
    OwnerFacts(img, t, pl, FREE_MAP_SECTOR);
  }

  lemma TableFacts(img: Image, t: Tree, pl: Places, u: Table)
    requires DiskOk(img, t, pl) && Ahead(img, t, u)
    ensures |u| == 10 && DistinctKeys(u) && u[0].sector as int in t.dirs
    ensures forall key :: key in Names(u) ==> Names(u)[key].sector >= 0
  {
    hide DiskOk, DirTable, MapBits, Key, Names, DistinctKeys;
    forall key | key in Names(u)
      ensures Names(u)[key].sector >= 0
    {
      var i := FirstFrom(u, key, 0);
      if u[i] == DirTable(img, u[0].sector)[i] {
        NodeAt(img, t, pl, u[0].sector, i);
      }
    }
  }

  /** The usual case: memory and disk agree. */
  lemma InStepAhead(img: Image, t: Tree, pl: Places, u: Table)
    requires DiskOk(img, t, pl) && InStep(img, t, u)
    ensures Ahead(img, t, u)
  {
    hide Words, Content, DirTable, PlaceOk, Dots, Key, DistinctKeys, MapBits;
    assert DirOk(Tables(img, t.dirs)[u[0].sector as int], u[0].sector, t);
  }

  lemma OneFewer(bits0: Bits, s: int, bitsS: Bits)
    requires s in ClearSet(bits0) && bitsS == bits0[s := true]
    ensures |ClearSet(bitsS)| == |ClearSet(bits0)| - 1 && ClearSet(bitsS) <= ClearSet(bits0)
  {
    assert ClearSet(bitsS) == ClearSet(bits0) - {s};
  }

  lemma FilledFacts(u0: Table, i: int, name: CString, s: int32, isDir: bool)
    requires |u0| == 10 && 2 <= i < 10 && !u0[i].InUse() && DistinctKeys(u0) && Key(name) !in Names(u0)
    ensures var u := Filled(u0, i, name, s, isDir);
            && |u| == 10 && u[0] == u0[0] && u != u0 && u[i].InUse() && NamesNew(u0, u, i, s, isDir)
            && Names(u) == Names(u0)[Key(name) := Listed(s, isDir)]
  {
    FilledNamesNew(u0, i, name, s, isDir);
    FilledNames(u0, i, name, s, isDir);
  }

  /** A table in memory that has moved on from the one on disk: there is no tree with which the two agree, but it
      is still only ahead. */
  lemma MovedOn(img: Image, t: Tree, u0: Table, u: Table, i: int, s: int32, isDir: bool)
    requires Ahead(img, t, u0) && NamesNew(u0, u, i, s, isDir) && s in ClearSet(MapBits(img))
    ensures Ahead(img, t, u)
    ensures forall t' :: !InStep(img, t', u)
  {
    hide DirTable, Key, MapBits, ClearSet, DistinctKeys;
    var v := DirTable(img, u0[0].sector);
    assert u[0] == u0[0];
    assert !v[i].InUse();
    forall j | 0 <= j < 10
      ensures u[j] == v[j] || StaleSlot(img, v, u, j)
    {
      assert j != i ==> u[j] == u0[j];
    }
  }

  /** What a Create that returns TRUE has done, whether or not it found room for the index blocks: file s has
      the name and the size asked for, no other node has changed, and all its blocks are there if they fitted. */
  ghost predicate FileMade(img0: Image, img: Image, t0: Tree, u0: Table, u: Table, name: CString, s: int32,
                           size: int32) {
    && |u| == 10 && s in ClearSet(MapBits(img0))
    && Words(img, s)[0] == size && Words(img, s)[1] == SectorCount(size) >= 0
    && Names(u) == Names(u0)[Key(name) := Listed(s, false)] && DirTable(img, u[0].sector) == u
    && Isolated(img0, img, t0, {u[0].sector as int})
    && (AllOnDisk(Blocks(img, Words(img, s), 1, SectorCount(size)))
       <==> Fits(|ClearSet(MapBits(img0))| - 1, SectorCount(size)))
  }

  /** Everything Create promises. A refusal writes nothing to the disk, but leaves the name in the directory in
      memory if it came late; the file system is in order afterwards, with exactly one file and its sectors
      more, if and only if it was so before, and neither that happened nor the index blocks lacked room. A
      directory in memory that no longer agrees with the disk agrees with it under no tree; and a TRUE that was
      short of index blocks, or that wrote a name left behind by an earlier refusal, leaves a disk that no tree
      and no ownership describe. A Create that stops leaves the disk in order as it was: what it has written are
      index blocks in sectors that the bitmap on disk still shows clear. */
  ghost predicate CreateResult(img0: Image, t0: Tree, pl0: Places, u0: Table, name: CString, size: int32, r: Outcome,
                               img: Image, t: Tree, pl: Places, u: Table, valid: bool) {
    var bits0 := MapBits(img0);
    var whole := CreatedWhole(u0, bits0, name, size) && InStep(img0, t0, u0);
    && r == CreateOutcome(u0, bits0, name, size)
    && (r == Refused ==>
          img == img0 && t == t0 && pl == pl0 && Ahead(img, t, u)
          && (u == u0 <==> !RefusedLate(u0, bits0, name, size)))
    && (RefusedLate(u0, bits0, name, size) ==> forall t' :: !InStep(img, t', u))
    && (r == Created ==> exists s: int32 :: FileMade(img0, img, t0, u0, u, name, s, size))
    && (whole ==> Key(name) in Names(u) && WholeFile(img, t0, pl0, t, pl, bits0, Names(u)[Key(name)].sector))
    && (r == Created && !whole ==> Disordered(img))
    && (r == Stopped ==> DiskOk(img, t0, pl0) && MapBits(img) == bits0 && Isolated(img0, img, t0, {}))
    && (r != Stopped ==> (valid <==>
          InStep(img0, t0, u0) && !RefusedLate(u0, bits0, name, size)
          && (r == Created ==> whole)))
  }

  /** File s joins tree and places, and owns exactly the sectors newly marked. */
  ghost predicate WholeFile(img: Image, t0: Tree, pl0: Places, t: Tree, pl: Places, bits0: Bits, s: int) {
    && t.files == t0.files + {s} && t.dirs == t0.dirs && s !in t0.files && WellFormed(img, Words(img, s), 1)
    && MapBits(img) == Marked(bits0, Owned(img, s, 1)) && pl == pl0 + PlacesOf(s, Owned(img, s, 1))
    && Leaked(bits0, pl0, MapBits(img), pl, {})
  }

  lemma EarlyRefusal(img0: Image, t0: Tree, pl0: Places, u0: Table, name: CString, size: int32, valid: bool)
    requires !GetsToAllocate(u0, MapBits(img0), name) && Ahead(img0, t0, u0) && (valid <==> InStep(img0, t0, u0))
    ensures CreateResult(img0, t0, pl0, u0, name, size, Refused, img0, t0, pl0, u0, valid)
  {
    hide Names, Key, MapBits, ClearSet, Ahead, InStep;
  }

  lemma LateRefusal(img0: Image, t0: Tree, pl0: Places, u0: Table, name: CString, size: int32, i: int, u: Table)
    requires Key(name) !in Names(u0) && ClearSet(MapBits(img0)) != {} && 2 <= i < |u0| && !u0[i].InUse()
    requires |ClearSet(MapBits(img0))| - 1 < SectorCount(size) && u != u0
    requires Ahead(img0, t0, u) && forall t' :: !InStep(img0, t', u)
    ensures CreateResult(img0, t0, pl0, u0, name, size, Refused, img0, t0, pl0, u, false)
  {
    hide Names, Key, MapBits, ClearSet, Ahead, InStep;
    assert HasFreeSlot(u0);
  }

  lemma StoppedResult(img0: Image, t0: Tree, pl0: Places, u0: Table, name: CString, size: int32, i: int, img: Image,
                      t: Tree, pl: Places, u: Table, valid: bool)
    requires Key(name) !in Names(u0) && ClearSet(MapBits(img0)) != {} && 2 <= i < |u0| && !u0[i].InUse()
    requires |ClearSet(MapBits(img0))| - 1 >= SectorCount(size)
    requires !AllocateSucceeds(|ClearSet(MapBits(img0))| - 1, SectorCount(size))
    requires DiskOk(img0, t0, pl0) && forall x :: Sec(img, x) != Sec(img0, x) ==> x in ClearSet(MapBits(img0))
    ensures CreateResult(img0, t0, pl0, u0, name, size, Stopped, img, t, pl, u, valid)
  {
    hide Names, Key, MapBits, ClearSet, InStep, DiskOk, Isolated;
    assert HasFreeSlot(u0);
    ClearSectorsFree(img0, img, t0, pl0);
  }

  lemma AllocatedHere(bits0: Bits, bits1: Bits, img: Image, h: Header, n: int32, found: seq<int32>)
    requires AllocateSucceeds(|ClearSet(bits0)|, n) && FindRun(bits0, bits1, found)
    requires LaidOut(img, h, n, IndexCount(n), found)
    ensures Allocated(bits0, bits1, img, h, n, found) && 0 <= n <= 960
  {
  }

  lemma DiskParts(img: Image, t: Tree, pl: Places, u: Table)
    requires DiskOk(img, t, pl) && Ahead(img, t, u)
    ensures OwnedOk(img, t, pl) && AllMarked(MapBits(img), pl) && TreeOk(Tables(img, t.dirs), t)
    ensures |u| == 10 && u[0].sector as int in t.dirs && FREE_MAP_SECTOR !in t.files + t.dirs
    ensures DistinctKeys(u)
    ensures InStep(img, t, u) ==> u == DirTable(img, u[0].sector) == Tables(img, t.dirs)[u[0].sector as int]
  {
    hide Content, Words, PlaceOk, TreeOk, DistinctKeys, MapBits, DirTable;
  }

  lemma FileIsMade(img0: Image, img2: Image, img: Image, t0: Tree, pl0: Places, t: Tree, pl: Places, u0: Table,
                   u: Table, bits: Bits, name: CString, s: int32, size: int32, h: Header, n: int32)
    requires Kept(img0, img2, t0, pl0, {}) && Flushed(img2, img, t, pl, t0, pl0, u, bits)
    requires t0.files <= t.files && t0.dirs == t.dirs && FREE_MAP_SECTOR !in t0.files + t0.dirs
    requires s in ClearSet(MapBits(img0)) && s as int !in pl0 && Words(img2, s) == h
    requires h[0] == size && h[1] == n == SectorCount(size) && 0 <= n <= 960
    requires forall x :: x in Entries(h, IndexCount(n)) ==> x !in pl0
    requires AllOnDisk(Blocks(img2, h, 1, n)) <==> Fits(|ClearSet(MapBits(img0))| - 1, n)
    requires Names(u) == Names(u0)[Key(name) := Listed(s, false)]
    ensures FileMade(img0, img, t0, u0, u, name, s, size)
  {
    hide Words, Kept, MapBits, ClearSet, SectorOf, Entries, DirTable, Names, Key, Isolated, Fits;
    var d := u[0].sector as int;
    SameWords(img2, img, s);
    forall k | 0 <= k < n
      ensures SectorOf(img, h, 1, k) == SectorOf(img2, h, 1, k)
    {
      SectorOfKept(img2, img, h, n, k);
    }
    assert Blocks(img, h, 1, n) == Blocks(img2, h, 1, n);
    KeptIsolated(img0, img2, t0, pl0, {});
    KeptIsolated(img2, img, t, pl, {d, FREE_MAP_SECTOR});
    IsolatedTrans(img0, img2, img, t0, t, d, {d, FREE_MAP_SECTOR});
  }

  lemma FileIsWhole(img0: Image, img2: Image, img: Image, t0: Tree, pl0: Places, t: Tree, pl: Places, u0: Table,
                    u: Table, i: int, s: int32, h: Header, bits: Bits)
    requires DiskOk(img0, t0, pl0) && InStep(img0, t0, u0) && NamesNew(u0, u, i, s, false) && u[0] == u0[0]
    requires Kept(img0, img2, t0, pl0, {}) && OwnedOk(img2, t, pl) && Words(img2, s) == h && WellFormed(img2, h, 1)
    requires t == WithFile(t0, u0[0].sector, i, s) && s as int !in Owners(t0)
    requires Flushed(img2, img, t, pl, t0, pl0, u, bits)
    requires pl == pl0 + PlacesOf(s, Owned(img2, s, 1)) && bits == Marked(MapBits(img0), Owned(img2, s, 1))
    requires AllMarked(bits, pl)
    requires Leaked(MapBits(img0), pl0, bits, pl, {})
    ensures DiskOk(img, t, pl) && InStep(img, t, u) && WholeFile(img, t0, pl0, t, pl, MapBits(img0), s)
  {
    hide Words, Content, DirTable, MapBits, PlaceOk, WellFormed, NamesNew, PlacesOf, TreeOk, Marked, Leaked;
    var d := u0[0].sector as int;
    assert Kept(img2, img, t, pl, {d, FREE_MAP_SECTOR});
    TablesAfter(img0, img2, img, t0, pl0, t, pl, d, u, t0.dirs);
    assert Tables(img, t.dirs) == Tables(img0, t0.dirs)[d := u];
    AddFile(Tables(img0, t0.dirs), t0, d, i, s, u);
    OwnerFacts(img, t, pl, s);
  }

  /** Every directory's table but d's is as it was; d's is u. */
  lemma TablesAfter(img0: Image, img2: Image, img: Image, t0: Tree, pl0: Places, t: Tree, pl: Places, d: int, u: Table,
                    dirs: set<int>)
    requires Kept(img0, img2, t0, pl0, {}) && Kept(img2, img, t, pl, {d, FREE_MAP_SECTOR}) && DirTable(img, d) == u
    requires dirs <= t0.dirs <= t.dirs && d in dirs && FREE_MAP_SECTOR !in dirs
    ensures Tables(img, dirs) == Tables(img0, dirs)[d := u]
  {
    hide Kept, DirTable;
    forall x | x in dirs && x != d
      ensures DirTable(img, x) == DirTable(img0, x)
    {
      DirTableKept(img0, img2, t0, pl0, {}, x);
      DirTableKept(img2, img, t, pl, {d, FREE_MAP_SECTOR}, x);
    }
  }

  /** The tables on disk after a new name is written to directory d: none has lost a name. */
  lemma TablesGrown(img0: Image, t0: Tree, pl0: Places, img: Image, t: Tree, u0: Table, u: Table, i: int, s: int32,
                    isDir: bool)
    requires DiskOk(img0, t0, pl0) && Ahead(img0, t0, u0) && NamesNew(u0, u, i, s, isDir)
    requires Isolated(img0, img, t0, {u0[0].sector as int}) && DirTable(img, u0[0].sector) == u
    ensures Grown(Tables(img0, t0.dirs), Tables(img, t.dirs), {})
  {
    hide DirTable, Key, MapBits, ClearSet, DistinctKeys, OwnedOk, AllMarked, FileAt, Words;
    var d := u0[0].sector as int;
    forall x | x in t0.dirs && x in t.dirs
      ensures Keeps(DirTable(img0, x), DirTable(img, x), {})
    {
      assert DirOk(Tables(img0, t0.dirs)[x], x, t0);
      if x == d {
        NameAdded(img0, t0, u0, u, i, s, isDir);
      }
    }
  }

  lemma NameAdded(img0: Image, t0: Tree, u0: Table, u: Table, i: int, s: int32, isDir: bool)
    requires Ahead(img0, t0, u0) && NamesNew(u0, u, i, s, isDir)
    ensures Keeps(DirTable(img0, u0[0].sector), u, {})
  {
    hide DirTable, Key, MapBits, ClearSet, DistinctKeys;
    var v := DirTable(img0, u0[0].sector);
    forall j | 2 <= j < 10 && v[j].InUse()
      ensures u[j] == v[j]
    {
      assert u0[j] == v[j];
    }
  }

  /** Whatever tree the disk holds now, the directory that was written is in it, and what its slots name are nodes. */
  lemma SlotNamesNode(img0: Image, t0: Tree, pl0: Places, img: Image, t: Tree, pl: Places, u0: Table, u: Table, i: int,
                      s: int32, isDir: bool, j: int)
    requires DiskOk(img0, t0, pl0) && Ahead(img0, t0, u0) && NamesNew(u0, u, i, s, isDir) && u[0] == u0[0]
    requires Isolated(img0, img, t0, {u0[0].sector as int}) && DirTable(img, u0[0].sector) == u
    requires DiskOk(img, t, pl) && 2 <= j < 10 && u[j].InUse()
    ensures u[j].sector as int in t.namedAt && t.namedAt[u[j].sector as int] == (u[0].sector as int, j)
    ensures u[j].sector as int in (if u[j].IsDir() then t.dirs else t.files)
  {
    hide DirTable, Key, MapBits, ClearSet, DistinctKeys, OwnedOk, AllMarked, Isolated, Dots, Grown, Ahead;
    var d := u0[0].sector as int;
    AheadDir(img0, t0, u0);
    TablesGrown(img0, t0, pl0, img, t, u0, u, i, s, isDir);
    UnderNothing(t0, d);
    DirectoriesRemain(Tables(img0, t0.dirs), t0, Tables(img, t.dirs), t, {}, d);
    assert DirOk(Tables(img, t.dirs)[d], d, t);
    assert SlotOk(u, d, t, j);
  }

  lemma AheadDir(img: Image, t: Tree, u: Table)
    requires Ahead(img, t, u)
    ensures |u| == 10 && u[0].sector as int in t.dirs
  {
  }

  /** A file whose blocks are not all on the disk belongs to no file system in order. */
  lemma MissingBlockDisorders(img0: Image, t0: Tree, pl0: Places, img: Image, u0: Table, u: Table, i: int, s: int32)
    requires DiskOk(img0, t0, pl0) && Ahead(img0, t0, u0) && NamesNew(u0, u, i, s, false) && u[0] == u0[0]
    requires Isolated(img0, img, t0, {u0[0].sector as int}) && DirTable(img, u0[0].sector) == u
    requires Words(img, s)[1] >= 0 && !AllOnDisk(Blocks(img, Words(img, s), 1, Words(img, s)[1]))
    ensures Disordered(img)
  {
    hide DiskOk, Ahead, Isolated, DirTable, Words, Blocks, AllOnDisk, DistinctKeys;
    forall t, pl
      ensures !DiskOk(img, t, pl)
    {
      if DiskOk(img, t, pl) {
        SlotNamesNode(img0, t0, pl0, img, t, pl, u0, u, i, s, false, i);
        FileBlocks(img, t, pl, s);
        assert false;
      }
    }
  }

  lemma FileBlocks(img: Image, t: Tree, pl: Places, f: int)
    requires DiskOk(img, t, pl) && f in t.files
    ensures Words(img, f)[1] >= 0 && AllOnDisk(Blocks(img, Words(img, f), 1, Words(img, f)[1]))
  {
    hide Words, PlaceOk, TreeOk, Blocks, WellFormed;
    FileIsOwner(img, t, pl, f);
    BlockFacts(img, Words(img, f), 1);
  }

  /** Every sector marked since is the new node's: its header, its index blocks, its data. */
  ghost predicate NewMarks(img0: Image, img: Image, s: int, isDir: bool) {
    forall x :: OnDisk(x) && MapBits(img)[x] ==>
      MapBits(img0)[x] || x == s || x in Claims(img, Words(img, s), if isDir then 0 else 1)
  }

  /** Every slot in use but that of the new node names a sector that was marked before it: a header is marked. */
  lemma SlotsWereMarked(img0: Image, t0: Tree, pl0: Places, img: Image, t: Tree, pl: Places, u0: Table, u: Table,
                        i: int, s: int32, isDir: bool, j: int)
    requires DiskOk(img0, t0, pl0) && Ahead(img0, t0, u0) && NamesNew(u0, u, i, s, isDir) && u[0] == u0[0]
    requires Isolated(img0, img, t0, {u0[0].sector as int}) && DirTable(img, u0[0].sector) == u
    requires NewMarks(img0, img, s, isDir)
    requires DiskOk(img, t, pl) && 2 <= j < 10 && u[j].InUse() && j != i
    ensures u[j].sector as int !in ClearSet(MapBits(img0))
  {
    hide DiskOk, Ahead, Isolated, DirTable, Words, Claims, DistinctKeys, MapBits;
    var x := u[j].sector as int;
    SlotNamesNode(img0, t0, pl0, img, t, pl, u0, u, i, s, isDir, i);
    SlotNamesNode(img0, t0, pl0, img, t, pl, u0, u, i, s, isDir, j);
    HeaderIsMarked(img, t, pl, x);
    NotClaimed(img, t, pl, s, isDir, x);
  }

  lemma HeaderIsMarked(img: Image, t: Tree, pl: Places, x: int)
    requires DiskOk(img, t, pl) && x in t.files + t.dirs
    ensures OnDisk(x) && MapBits(img)[x]
  {
    hide Words, PlaceOk, TreeOk, MapBits;
    OwnerFacts(img, t, pl, x);
  }

  /** No node claims another's header. */
  lemma NotClaimed(img: Image, t: Tree, pl: Places, f: int, isDir: bool, x: int)
    requires DiskOk(img, t, pl) && f in (if isDir then t.dirs else t.files) && x in t.files + t.dirs && x != f
    ensures x !in Claims(img, Words(img, f), if isDir then 0 else 1)
  {
    hide Words, PlaceOk, TreeOk, MapBits, Claims, AllMarked;
    OwnerFacts(img, t, pl, f);
    OwnerFacts(img, t, pl, x);
    assert ModeOf(t.files, f) == if isDir then 0 else 1;
    assert forall y :: y in Claims(img, Words(img, f), ModeOf(t.files, f)) ==> y in Owned(img, f, ModeOf(t.files, f));
    assert x in Owned(img, x, ModeOf(t.files, x));
  }

  /** A name left behind by a refusal, once it is written to the disk, belongs to no file system in order. */
  lemma StaleNameDisorders(img0: Image, t0: Tree, pl0: Places, img: Image, u0: Table, u: Table, i: int, s: int32,
                           isDir: bool)
    requires DiskOk(img0, t0, pl0) && Ahead(img0, t0, u0) && !InStep(img0, t0, u0) && NamesNew(u0, u, i, s, isDir)
    requires u[0] == u0[0]
    requires Isolated(img0, img, t0, {u0[0].sector as int}) && DirTable(img, u0[0].sector) == u
    requires NewMarks(img0, img, s, isDir)
    ensures Disordered(img)
  {
    hide DiskOk, Isolated, DirTable, NewMarks, DistinctKeys, MapBits;
    var v := DirTable(img0, u0[0].sector);
    var j :| 0 <= j < 10 && u0[j] != v[j];
    assert StaleSlot(img0, v, u0, j) && j != i && u[j] == u0[j];
    forall t, pl
      ensures !DiskOk(img, t, pl)
    {
      if DiskOk(img, t, pl) {
        SlotsWereMarked(img0, t0, pl0, img, t, pl, u0, u, i, s, isDir, j);
        assert false;
      }
    }
  }

  /** The sectors that Create marked are the new file's. */
  lemma FileMarks(img0: Image, img1: Image, img2: Image, img: Image, t0: Tree, pl0: Places, t: Tree, pl: Places,
                  u: Table, bitsS: Bits, bits2: Bits, s: int32, h: Header, n: int32, found: seq<int32>)
    requires s in ClearSet(MapBits(img0)) && bitsS == MapBits(img0)[s := true] && s as int !in pl0
    requires Allocated(bitsS, bits2, img1, h, n, found) && h[1] == n && 0 <= n <= 960
    requires Words(img2, s) == h && Blocks(img2, h, 1, n) == Blocks(img1, h, 1, n)
    requires forall x :: x in Entries(h, IndexCount(n)) ==> x !in pl0
    requires Flushed(img2, img, t, pl, t0, pl0, u, bits2)
    ensures NewMarks(img0, img, s, false)
  {
    hide Words, Kept, MapBits, ClearSet, SectorOf, Entries, DirTable, FindRun, LaidOut, AllocateSucceeds;
    BlocksFound(bitsS, bits2, img1, h, n, found);
    SameWords(img2, img, s);
    forall k | 0 <= k < n
      ensures SectorOf(img, h, 1, k) == SectorOf(img2, h, 1, k)
    {
      SectorOfKept(img2, img, h, n, k);
    }
    assert Blocks(img, h, 1, n) == Blocks(img2, h, 1, n);
    assert Claims(img, h, 1) == Entries(h, IndexCount(n)) + Blocks(img1, h, 1, n);
  }

  /** A Create that returned TRUE without room for the index blocks, or with a name left behind. */
  lemma FileDisorders(img0: Image, t0: Tree, pl0: Places, img: Image, u0: Table, u: Table, i: int, name: CString,
                      s: int32, size: int32)
    requires DiskOk(img0, t0, pl0) && Ahead(img0, t0, u0) && |u0| == 10 && NamesNew(u0, u, i, s, false) && u[0] == u0[0]
    requires FileMade(img0, img, t0, u0, u, name, s, size) && NewMarks(img0, img, s, false)
    requires !InStep(img0, t0, u0) || !Fits(|ClearSet(MapBits(img0))| - 1, SectorCount(size))
    ensures Disordered(img)
  {
    hide DiskOk, Ahead, Isolated, DirTable, Words, Blocks, AllOnDisk, DistinctKeys, MapBits, ClearSet, Names, Key,
         NewMarks, Fits, InStep, NamesNew, Disordered;
    if InStep(img0, t0, u0) {
      MissingBlockDisorders(img0, t0, pl0, img, u0, u, i, s);
    } else {
      StaleNameDisorders(img0, t0, pl0, img, u0, u, i, s, false);
    }
  }

  lemma DirDisorders(img0: Image, t0: Tree, pl0: Places, img: Image, u0: Table, u: Table, i: int, name: CString,
                     s: int32)
    requires DiskOk(img0, t0, pl0) && Ahead(img0, t0, u0) && |u0| == 10 && NamesNew(u0, u, i, s, true) && u[0] == u0[0]
    requires DirMade(img0, img, t0, u0, u, name, s) && NewMarks(img0, img, s, true) && !InStep(img0, t0, u0)
    ensures Disordered(img)
  {
    hide DiskOk, Ahead, Isolated, DirTable, Words, DistinctKeys, MapBits, ClearSet, Names, Key, NewMarks, InStep,
         NamesNew, Disordered;
    StaleNameDisorders(img0, t0, pl0, img, u0, u, i, s, true);
  }

  lemma CreatedResult(img0: Image, t0: Tree, pl0: Places, u0: Table, name: CString, size: int32, img: Image, t: Tree,
                      pl: Places, u: Table, s: int32, valid: bool)
    requires GetsToAllocate(u0, MapBits(img0), name)
    requires AllocateSucceeds(|ClearSet(MapBits(img0))| - 1, SectorCount(size))
    requires FileMade(img0, img, t0, u0, u, name, s, size)
    requires valid <==> Fits(|ClearSet(MapBits(img0))| - 1, SectorCount(size)) && InStep(img0, t0, u0)
    requires if valid then WholeFile(img, t0, pl0, t, pl, MapBits(img0), s) else Disordered(img)
    ensures CreateResult(img0, t0, pl0, u0, name, size, Created, img, t, pl, u, valid)
  {
    hide Key, MapBits, ClearSet, GetsToAllocate, WholeFile, Fits, Isolated, InStep, Disordered;
  }

  const DIR_SECTORS := 2

  /** CreateDirectory refused for want of data sectors, after the name had been entered in the table in memory. */
  predicate MkdirLate(table: Table, bits: Bits, name: CString) {
    GetsToAllocate(table, bits, name) && |ClearSet(bits)| - 1 < DIR_SECTORS
  }

  function MkdirOutcome(table: Table, bits: Bits, name: CString): int {
    if Key(name) in Names(table) then -2
    else if !GetsToAllocate(table, bits, name) || MkdirLate(table, bits, name) then -1
    else 0
  }

  /** An empty directory s is named in directory u and leads back to it; it owns exactly the sectors newly
      marked, and no other node has changed. */
  ghost predicate DirMade(img0: Image, img: Image, t0: Tree, u0: Table, u: Table, name: CString, s: int32) {
    && |u| == 10 && s in ClearSet(MapBits(img0)) && s as int !in t0.files + t0.dirs
    && Names(u) == Names(u0)[Key(name) := Listed(s, true)] && DirTable(img, u[0].sector) == u
    && FreshDir(DirTable(img, s), s, u[0].sector)
    && Isolated(img0, img, t0, {u[0].sector as int})
    && MapBits(img) == Marked(MapBits(img0), Owned(img, s, 0))
  }

  /** Directory s joins tree and places. */
  ghost predicate WholeDir(img0: Image, img: Image, t0: Tree, pl0: Places, t: Tree, pl: Places, d: int, s: int) {
    && t.files == t0.files && t.dirs == t0.dirs + {s} && Parent(t, s) == d
    && pl == pl0 + PlacesOf(s, Owned(img, s, 0))
    && Leaked(MapBits(img0), pl0, MapBits(img), pl, {})
  }

  /** Everything CreateDirectory promises. A refusal writes nothing to the disk; a late one leaves the name in
      the directory in memory, which then agrees with the disk under no tree. The file system is in order
      afterwards if and only if it was so before and that did not happen; a name left behind earlier leaves a
      disk that no tree and no ownership describe. */
  ghost predicate MkdirResult(img0: Image, t0: Tree, pl0: Places, u0: Table, name: CString, r: int, img: Image,
                              t: Tree, pl: Places, u: Table, valid: bool) {
    var bits0 := MapBits(img0);
    && r == MkdirOutcome(u0, bits0, name)
    && (r != 0 ==>
          img == img0 && t == t0 && pl == pl0 && Ahead(img, t, u)
          && (u == u0 <==> !MkdirLate(u0, bits0, name)))
    && (MkdirLate(u0, bits0, name) ==> forall t' :: !InStep(img, t', u))
    && (r == 0 ==> exists s: int32 :: DirMade(img0, img, t0, u0, u, name, s)
                                      && (InStep(img0, t0, u0) ==> WholeDir(img0, img, t0, pl0, t, pl, u[0].sector, s)))
    && (r == 0 && !InStep(img0, t0, u0) ==> Disordered(img))
    && (valid <==> InStep(img0, t0, u0) && !MkdirLate(u0, bits0, name))
  }

  lemma EarlyMkdirRefusal(img0: Image, t0: Tree, pl0: Places, u0: Table, name: CString, valid: bool)
    requires !GetsToAllocate(u0, MapBits(img0), name) && Ahead(img0, t0, u0) && (valid <==> InStep(img0, t0, u0))
    ensures MkdirResult(img0, t0, pl0, u0, name, if Key(name) in Names(u0) then -2 else -1, img0, t0, pl0, u0, valid)
  {
    hide Names, Key, MapBits, ClearSet, Ahead, InStep;
  }

  lemma LateMkdirRefusal(img0: Image, t0: Tree, pl0: Places, u0: Table, name: CString, i: int, u: Table)
    requires Key(name) !in Names(u0) && ClearSet(MapBits(img0)) != {} && 2 <= i < |u0| && !u0[i].InUse()
    requires |ClearSet(MapBits(img0))| - 1 < DIR_SECTORS && u != u0
    requires Ahead(img0, t0, u) && forall t' :: !InStep(img0, t', u)
    ensures MkdirResult(img0, t0, pl0, u0, name, -1, img0, t0, pl0, u, false)
  {
    hide Names, Key, MapBits, ClearSet, Ahead, InStep;
    assert HasFreeSlot(u0);
  }

  lemma MkdirDone(img0: Image, t0: Tree, pl0: Places, u0: Table, name: CString, img: Image, t: Tree, pl: Places,
                  u: Table, s: int32)
    requires GetsToAllocate(u0, MapBits(img0), name) && DIR_SECTORS <= |ClearSet(MapBits(img0))| - 1
    requires |u| == 10 && DirMade(img0, img, t0, u0, u, name, s)
    requires if InStep(img0, t0, u0) then WholeDir(img0, img, t0, pl0, t, pl, u[0].sector, s) else Disordered(img)
    ensures MkdirResult(img0, t0, pl0, u0, name, 0, img, t, pl, u, InStep(img0, t0, u0))
  {
    hide Names, Key, MapBits, ClearSet, DirMade, WholeDir, InStep, Disordered;
  }

  lemma NewTableFresh(w: Table, s: int, d: int)
    requires |w| == 10 && (forall i :: 0 <= i < 10 ==> w[i].InUse() == (i < 2))
    requires forall i :: 0 <= i < 2 ==> w[i].IsDir() && Key(w[i].name) == Dots(i + 1)
    requires w[0].sector == s && w[1].sector == d
    ensures FreshDir(w, s, d)
  {
    hide Key, Dots;
  }

  /** Every directory's table but d's and s's is as it was. */
  lemma TablesWithDir(img0: Image, img1: Image, img2: Image, img3: Image, img: Image, t0: Tree, pl0: Places, t: Tree,
                      pl: Places, d: int, s: int, u: Table, w: Table)
    requires Kept(img0, img1, t0, pl0, {}) && Kept(img1, img2, t, pl, {d})
    requires Kept(img2, img3, t, pl, {s}) && Kept(img3, img, t, pl, {FREE_MAP_SECTOR})
    requires t.dirs == t0.dirs + {s} && d in t0.dirs && s !in t0.dirs && FREE_MAP_SECTOR !in t.dirs
    requires DirTable(img2, d) == u && DirTable(img3, s) == w
    ensures DirTable(img, d) == u && DirTable(img, s) == w
    ensures Tables(img, t.dirs) == Tables(img0, t0.dirs)[d := u][s := w]
  {
    hide DirTable, Kept;
    DirTableKept(img2, img3, t, pl, {s}, d);
    DirTableKept(img3, img, t, pl, {FREE_MAP_SECTOR}, d);
    DirTableKept(img3, img, t, pl, {FREE_MAP_SECTOR}, s);
    forall x | x in t0.dirs && x != d
      ensures DirTable(img, x) == DirTable(img0, x)
    {
      DirTableKept(img0, img1, t0, pl0, {}, x);
      DirTableKept(img1, img2, t, pl, {d}, x);
      DirTableKept(img2, img3, t, pl, {s}, x);
      DirTableKept(img3, img, t, pl, {FREE_MAP_SECTOR}, x);
    }
  }

  /** The four writes that end CreateDirectory, put together. Tree t has the new directory. */
  lemma DirIsMade(img0: Image, img1: Image, img2: Image, img3: Image, img: Image, t0: Tree, pl0: Places, t: Tree,
                  pl: Places, u0: Table, u: Table, i: int, s: int32, w: Table, bits: Bits, name: CString)
    requires |u0| == |u| == 10 && u[0] == u0[0] && s as int !in Owners(t0) && s in ClearSet(MapBits(img0))
    requires t == WithDir(t0, u0[0].sector, i, s) && pl == pl0 + PlacesOf(s, Owned(img1, s, 0))
    requires FreshDir(w, s, u0[0].sector) && Names(u) == Names(u0)[Key(name) := Listed(s, true)]
    requires bits == Marked(MapBits(img0), Owned(img1, s, 0))
    requires DiskOk(img0, t0, pl0) && Ahead(img0, t0, u0)
    requires Kept(img0, img1, t0, pl0, {}) && Kept(img1, img2, t, pl, {u0[0].sector as int})
    requires Kept(img2, img3, t, pl, {s as int}) && Kept(img3, img, t, pl, {FREE_MAP_SECTOR})
    requires DirTable(img2, u0[0].sector) == u && DirTable(img3, s) == w && MapBits(img) == bits
    ensures DirMade(img0, img, t0, u0, u, name, s)
    ensures InStep(img, t, u) && Words(img, FREE_MAP_SECTOR) == Words(img3, FREE_MAP_SECTOR)
    ensures Owned(img, s, 0) == Owned(img1, s, 0) && OwnedOk(img, t, pl)
    ensures Tables(img, t.dirs) == Tables(img0, t0.dirs)[u0[0].sector as int := u][s as int := w]
  {
    hide Words, Content, DirTable, MapBits, PlaceOk, PlacesOf, Names, Key, Marked, Kept, TreeOk, Tables, FreshDir,
         Isolated, ClearSet, Ahead;
    var d := u0[0].sector as int;
    DiskParts(img0, t0, pl0, u0);
    KeptIsolated(img0, img1, t0, pl0, {});
    KeptTrans(img1, img2, img3, t, pl, {d}, {s as int}, {d, s as int});
    KeptTrans(img1, img3, img, t, pl, {d, s as int}, {FREE_MAP_SECTOR}, {d, s as int, FREE_MAP_SECTOR});
    KeptIsolated(img1, img, t, pl, {d, s as int, FREE_MAP_SECTOR});
    IsolatedTrans(img0, img1, img, t0, t, d, {d, s as int, FREE_MAP_SECTOR});
    HeaderKept(img1, img, t, pl, {d, s as int, FREE_MAP_SECTOR}, s);
    HeaderKept(img3, img, t, pl, {FREE_MAP_SECTOR}, FREE_MAP_SECTOR);
    TablesWithDir(img0, img1, img2, img3, img, t0, pl0, t, pl, d, s, u, w);
  }

  lemma DirIsWhole(img0: Image, img: Image, t0: Tree, pl0: Places, t: Tree, pl: Places, u0: Table, u: Table, i: int,
                   s: int32, w: Table)
    requires |u0| == 10 && s as int !in Owners(t0) && NamesNew(u0, u, i, s, true) && FreshDir(w, s, u0[0].sector)
    requires t == WithDir(t0, u0[0].sector, i, s) && pl == pl0 + PlacesOf(s, Owned(img, s, 0))
    requires DiskOk(img0, t0, pl0) && InStep(img0, t0, u0) && OwnedOk(img, t, pl)
    requires MapBits(img) == Marked(MapBits(img0), Owned(img, s, 0)) && AllMarked(MapBits(img), pl)
    requires Leaked(MapBits(img0), pl0, MapBits(img), pl, {})
    requires Tables(img, t.dirs) == Tables(img0, t0.dirs)[u0[0].sector as int := u][s as int := w]
    ensures DiskOk(img, t, pl) && WholeDir(img0, img, t0, pl0, t, pl, u0[0].sector, s)
  {
    hide Words, Content, DirTable, MapBits, PlaceOk, PlacesOf, NamesNew, Marked, TreeOk, FreshDir, AllMarked, Leaked;
    assert Tables(img0, t0.dirs)[u0[0].sector as int] == u0;
    RootThere(Tables(img0, t0.dirs), t0);
    AddDir(Tables(img0, t0.dirs), t0, u0[0].sector, i, s, u, w);
  }

  lemma DirMarks(img0: Image, img: Image, s: int)
    requires MapBits(img) == Marked(MapBits(img0), Owned(img, s, 0))
    ensures NewMarks(img0, img, s, true)
  {
    hide MapBits, Claims, Words;
    assert forall x :: x in Owned(img, s, 0) ==> x == s || x in Claims(img, Words(img, s), 0);
  }

  /** A table as a new Directory has it, before anything is fetched. */
  ghost predicate NewTable(w: Table) {
    && |w| == 10 && (forall i :: 0 <= i < 10 ==> w[i].InUse() == (i < 2))
    && (forall i :: 0 <= i < 2 ==> w[i].IsDir() && Key(w[i].name) == Dots(i + 1))
  }

  /** Everything ChangeDirectory promises. Whatever the name is of, its header is taken for a directory's: the disk
      stops the kernel iff the sectors of its first 160 bytes are not all there, and otherwise these bytes, as many as
      there are, become the current directory. If the name is a directory's on the disk, they are its table. */
  ghost predicate ChdirResult(img: Image, t: Tree, u0: Table, name: CString, r: Call<int>, u: Table)
    requires |u0| > 0
  {
    var key, v := Key(name), DirTable(img, u0[0].sector);
    && (r == Returned(-1) <==> key !in Names(u0))
    && (r != Returned(0) ==> u == u0)
    && (key in Names(u0) ==>
          var s := Names(u0)[key].sector;
          var h := Words(img, s);
          && (r == Returned(0) <==> Legible(img, h, 0, 0, 160)) && (r == Returned(0) || r == Halted)
          && (r == Returned(0) ==> exists w :: NewTable(w) && u == Fetched(w, Content(img, h, 0)))
          && (key in Names(v) && Names(v)[key].isDir ==>
                r == Returned(0) && u == DirTable(img, s) && |u| == 10 && u[0].sector == s && InStep(img, t, u)))
  }

  lemma ChdirRefused(img: Image, t: Tree, u: Table, name: CString)
    requires |u| > 0 && Key(name) !in Names(u)
    ensures ChdirResult(img, t, u, name, Returned(-1), u)
  {
    hide Names, Key, DirTable, InStep;
  }

  lemma ChdirHalted(img: Image, t: Tree, pl: Places, u: Table, name: CString)
    requires DiskOk(img, t, pl) && Ahead(img, t, u) && Key(name) in Names(u)
    requires !Legible(img, Words(img, Names(u)[Key(name)].sector), 0, 0, 160)
    ensures ChdirResult(img, t, u, name, Halted, u)
  {
    hide DiskOk, Names, Key, DirTable, InStep, Legible, Words, MapBits, DistinctKeys, Content;
    AheadDir(img, t, u);
    if Key(name) in Names(DirTable(img, u[0].sector)) && Names(DirTable(img, u[0].sector))[Key(name)].isDir {
      OnDiskListed(img, t, pl, u, Key(name));
      NamedNodes(img, t, pl, u[0].sector);
      DirOnDisk(img, t, pl, Names(u)[Key(name)].sector);
      assert false;
    }
  }

  lemma ChdirDone(img: Image, t: Tree, pl: Places, u0: Table, name: CString, w: Table, u: Table)
    requires DiskOk(img, t, pl) && Ahead(img, t, u0) && Key(name) in Names(u0) && NewTable(w)
    requires var h := Words(img, Names(u0)[Key(name)].sector);
             Legible(img, h, 0, 0, 160) && u == Fetched(w, Content(img, h, 0))
    ensures ChdirResult(img, t, u0, name, Returned(0), u)
  {
    hide DiskOk, Names, Key, DirTable, InStep, Legible, Words, MapBits, DistinctKeys, Content, DecodeTable, Fetched,
         NewTable;
    AheadDir(img, t, u0);
    SizeOfNew(w);
    if Key(name) in Names(DirTable(img, u0[0].sector)) && Names(DirTable(img, u0[0].sector))[Key(name)].isDir {
      OnDiskListed(img, t, pl, u0, Key(name));
      NamedNodes(img, t, pl, u0[0].sector);
      DirOnDisk(img, t, pl, Names(u0)[Key(name)].sector);
    }
  }

  lemma NewTableIs(w: Table)
    requires |w| == 10 && forall i :: 0 <= i < 10 ==> w[i].InUse() == (i < 2)
    requires forall i :: 0 <= i < 2 ==> w[i].IsDir() && Key(w[i].name) == Dots(i + 1)
    ensures NewTable(w)
  {
  }

  lemma SizeOfNew(w: Table)
    requires NewTable(w)
    ensures |w| == 10
  {
  }

  /** What the directory on disk lists, memory lists too, in the same way. */
  lemma OnDiskListed(img: Image, t: Tree, pl: Places, u: Table, key: seq<byte>)
    requires DiskOk(img, t, pl) && Ahead(img, t, u) && key in Names(DirTable(img, u[0].sector))
    ensures key in Names(u) && Names(u)[key] == Names(DirTable(img, u[0].sector))[key]
  {
    hide DiskOk, DirTable, MapBits, Key, Names;
    var v := DirTable(img, u[0].sector);
    DirOnDisk(img, t, pl, u[0].sector);
    var f := FirstFrom(v, key, 0);
    assert u[f] == v[f];
    ListedAt(u, f, key);
  }

  /** A directory that the tree knows is on the disk, and following its file gives its table. */
  lemma DirOnDisk(img: Image, t: Tree, pl: Places, d: int)
    requires DiskOk(img, t, pl) && d in t.dirs
    ensures OnDisk(d) && WellFormed(img, Words(img, d), 0) && Length(Words(img, d)) == 160
    ensures Legible(img, Words(img, d), 0, 0, 160) && DirTable(img, d) == DecodeTable(Content(img, Words(img, d), 0))
    ensures |DirTable(img, d)| == 10 && DirTable(img, d)[0].sector == d && InStep(img, t, DirTable(img, d))
  {
    hide Words, WellFormed, PlaceOk, Content, DecodeTable;
    DirFile(img, t, pl, d);
    WellFormedIsLegible(img, Words(img, d), 0, 0, 160);
    assert DirOk(Tables(img, t.dirs)[d], d, t);
  }

  /** Whatever a slot in use names is a node on the disk. */
  lemma NodeAt(img: Image, t: Tree, pl: Places, d: int, i: int)
    requires DiskOk(img, t, pl) && d in t.dirs && |DirTable(img, d)| == 10 && 0 <= i < 10 && DirTable(img, d)[i].InUse()
    ensures var e := DirTable(img, d)[i];
            OnDisk(e.sector) && (if e.IsDir() then e.sector as int in t.dirs else e.sector as int in t.files)
  {
    hide Words, Content, DirTable, PlaceOk, Dots, Key, DistinctKeys, MapBits;
    var u := DirTable(img, d);
    assert Tables(img, t.dirs)[d] == u && DirOk(u, d, t);
    DirFacts(Tables(img, t.dirs), t, d);
    if i >= 2 {
      assert SlotOk(u, d, t, i);
    }
    OwnerFacts(img, t, pl, u[i].sector);
  }

  /** Everything a directory names is a node on the disk. */
  lemma NamedNodes(img: Image, t: Tree, pl: Places, d: int)
    requires DiskOk(img, t, pl) && d in t.dirs
    ensures forall key :: key in Names(DirTable(img, d)) ==>
              var e := Names(DirTable(img, d))[key];
              OnDisk(e.sector) && (if e.isDir then e.sector as int in t.dirs else e.sector as int in t.files)
  {
    hide DiskOk, DirTable, Key, Names;
    var u := DirTable(img, d);
    DirOnDisk(img, t, pl, d);
    forall key | key in Names(u)
      ensures var e := Names(u)[key];
              OnDisk(e.sector) && (if e.isDir then e.sector as int in t.dirs else e.sector as int in t.files)
    {
      NodeAt(img, t, pl, d, FirstFrom(u, key, 0));
    }
  }

  /** What Open gives: the header of the node that the directory on disk names, whole if it is a file. */
  ghost predicate OpenResult(img: Image, t: Tree, u: Table, name: CString, h: Header) {
    && Key(name) in Names(u)
    && var e := Names(u)[Key(name)];
       && h == Words(img, e.sector)
       && (!e.isDir ==> e.sector as int in t.files && WellFormed(img, h, 1))
  }

  lemma Opened(img: Image, t: Tree, pl: Places, d: int, name: CString)
    requires DiskOk(img, t, pl) && d in t.dirs && Key(name) in Names(DirTable(img, d))
    ensures OpenResult(img, t, DirTable(img, d), name, Words(img, Names(DirTable(img, d))[Key(name)].sector))
  {
    hide Words, Content, DirTable, WellFormed, PlaceOk, Key, Names, TreeOk;
    var u := DirTable(img, d);
    NamedNodes(img, t, pl, d);
    if !Names(u)[Key(name)].isDir {
      OwnerFacts(img, t, pl, Names(u)[Key(name)].sector);
    }
  }

  /** Going down to any directory that d names and then up again by ".." leads back to d. */
  lemma DownAndUp(img: Image, t: Tree, pl: Places, d: int, key: seq<byte>)
    requires DiskOk(img, t, pl) && d in t.dirs && key in Names(DirTable(img, d)) && Names(DirTable(img, d))[key].isDir
    requires key != Dots(1) && key != Dots(2)
    ensures var s := Names(DirTable(img, d))[key].sector as int;
            && s in t.dirs
            && Dots(1) in Names(DirTable(img, s)) && Names(DirTable(img, s))[Dots(1)] == Listed(s, true)
            && Dots(2) in Names(DirTable(img, s)) && Names(DirTable(img, s))[Dots(2)] == Listed(d, true)
  {
    hide DiskOk, DirTable, Dots, Key, Names, DistinctKeys, SlotOk;
    var u := DirTable(img, d);
    TableInOrder(img, t, pl, d);
    var i := FirstFrom(u, key, 0);
    assert SlotOk(u, d, t, i);
    ChildIsDir(u, d, t, i);
    var s := u[i].sector as int;
    var w := DirTable(img, s);
    TableInOrder(img, t, pl, s);
    ListedAt(w, 0, Dots(1));
    ListedAt(w, 1, Dots(2));
  }

  lemma TableInOrder(img: Image, t: Tree, pl: Places, d: int)
    requires DiskOk(img, t, pl) && d in t.dirs
    ensures DirOk(DirTable(img, d), d, t)
  {
    hide OwnedOk, AllMarked, DirTable, DirOk;
    assert DirOk(Tables(img, t.dirs)[d], d, t);
  }

  lemma ChildIsDir(u: Table, d: int, t: Tree, i: int)
    requires 2 <= i < |u| && u[i].IsDir() && SlotOk(u, d, t, i)
    ensures u[i].sector as int in t.dirs && Parent(t, u[i].sector) == d
  {
  }

  lemma FileIsOwner(img: Image, t: Tree, pl: Places, f: int)
    requires OwnedOk(img, t, pl) && f in t.files
    ensures f in Owners(t) && ModeOf(t.files, f) == 1 && WellFormed(img, Words(img, f), 1) && Words(img, f)[1] >= 0
  {
    hide Words, WellFormed, PlaceOk;
    OwnerFacts(img, t, pl, f);
  }

  /** What a write of data[..n] at position does to file f, and that it does nothing to any other node. */
  ghost predicate WriteResult(img0: Image, img: Image, t: Tree, f: int, position: int, data: seq<byte>, n: int) {
    && 0 <= position && 0 <= n <= |data| && (n == 0 || position + n <= |FileAt(img0, f)|)
    && FileAt(img, f) == Splice(FileAt(img0, f), position, data[..n])
    && Isolated(img0, img, t, {f})
  }

  lemma WroteThere(img0: Image, img: Image, t: Tree, f: int, position: int, data: seq<byte>, n: int)
    requires 0 <= position && 0 <= n <= |data| && (n == 0 || position + n <= |Content(img0, Words(img0, f), 1)|)
    requires Content(img, Words(img, f), 1) == Splice(Content(img0, Words(img0, f), 1), position, data[..n])
    requires Isolated(img0, img, t, {f})
    ensures WriteResult(img0, img, t, f, position, data, n)
  {
    hide Words, Content, Splice, Isolated;
  }
}
