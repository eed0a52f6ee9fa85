/** The invariant that ties a disk image to a tree of files and directories, and what each write keeps of it. */
module FileSystemState {
  import opened Bytes
  import opened Storage
  import opened BitMaps
  import opened FileHeaders
  import opened FileHeaderTheorems
  import opened OpenFiles
  import opened Directories
  import opened DirectoryTree
  import opened Ownership

  const FREE_MAP_SECTOR := 0
  const FREE_MAP_FILE_SIZE := 128

  function Owners(t: Tree): set<int> {
    {FREE_MAP_SECTOR} + t.files + t.dirs
  }

  /** The bitmap as its file holds it. */
  function MapBits(img: Image): Bits {
    var s := Content(img, Words(img, FREE_MAP_SECTOR), 0);
    if |s| == 128 then Unpack(s) else seq(NUM_SECTORS, _ => true)
  }

  /** The table of directory d as its file holds it. */
  function DirTable(img: Image, d: int): Table {
    var s := Content(img, Words(img, d), 0);
    if |s| == 160 then DecodeTable(s) else []
  }

  function Tables(img: Image, dirs: set<int>): map<int, Table> {
    map d | d in dirs :: DirTable(img, d)
  }

  /** An ordinary file, by its header sector. */
  function FileAt(img: Image, f: int): seq<byte> {
    Content(img, Words(img, f), 1)
  }

  /** Every owner owns its own sectors, and the bitmap file and the directories have their fixed sizes. */
  ghost predicate OwnedOk(img: Image, t: Tree, place: Places) {
    && PlaceOk(img, place, t.files, Owners(t))
    && t.files !! t.dirs && FREE_MAP_SECTOR !in t.files + t.dirs
    && Words(img, FREE_MAP_SECTOR)[0] == 128
    && (forall d :: d in t.dirs ==> Words(img, d)[0] == 160)
  }

  ghost predicate DiskOk(img: Image, t: Tree, place: Places) {
    OwnedOk(img, t, place) && AllMarked(MapBits(img), place) && TreeOk(Tables(img, t.dirs), t)
  }

  /** The directory in memory is the one on disk. */
  ghost predicate InStep(img: Image, t: Tree, table: Table) {
    |table| == 10 && table[0].sector as int in t.dirs && table == DirTable(img, table[0].sector)
  }

  /** The directory in memory is the one on disk, but that it may already name sectors that nothing on disk marks:
      what a Create or CreateDirectory that was refused late leaves behind. */
  ghost predicate Ahead(img: Image, t: Tree, u: Table) {
    && |u| == 10 && u[0].sector as int in t.dirs && DistinctKeys(u)
    && var v := DirTable(img, u[0].sector);
       |v| == 10 && forall j :: 0 <= j < 10 ==> u[j] == v[j] || StaleSlot(img, v, u, j)
  }

  ghost predicate StaleSlot(img: Image, v: Table, u: Table, j: int)
    requires 0 <= j < |v| && j < |u|
  {
    j >= 2 && !v[j].InUse() && u[j].InUse() && u[j].sector as int in ClearSet(MapBits(img))
  }

  /** No tree and no ownership at all describe what is on the disk. */
  ghost predicate Disordered(img: Image) {
    forall t, place :: !DiskOk(img, t, place)
  }

  /** What a write to the blocks of the owners in ds keeps: every header and map, and everyone else's contents. */
  ghost predicate Kept(img: Image, cur: Image, t: Tree, place: Places, ds: set<int>) {
    && OwnedOk(cur, t, place)
    && (forall o :: o in Owners(t) ==>
          Words(cur, o) == Words(img, o)
          && Owned(cur, o, ModeOf(t.files, o)) == Owned(img, o, ModeOf(t.files, o)))
    && (forall o :: o in Owners(t) && o !in ds ==>
          Content(cur, Words(cur, o), ModeOf(t.files, o)) == Content(img, Words(img, o), ModeOf(t.files, o)))
  }

  lemma KeptTrans(a: Image, b: Image, c: Image, t: Tree, place: Places, ds: set<int>, es: set<int>, all: set<int>)
    requires Kept(a, b, t, place, ds) && Kept(b, c, t, place, es) && ds <= all && es <= all
    ensures Kept(a, c, t, place, all)
  {
  }

  lemma KeptConfined(img: Image, cur: Image, t: Tree, place: Places, ds: set<int>)
    requires OwnedOk(img, t, place) && Confined(img, cur, place, t.files, ds)
    ensures Kept(img, cur, t, place, ds)
  {
    hide PlaceOk, Confined, Words, Content, Owned;
    PlaceKept(img, cur, place, t.files, Owners(t), ds);
    forall o | o in Owners(t)
      ensures Words(cur, o) == Words(img, o) && Owned(cur, o, ModeOf(t.files, o)) == Owned(img, o, ModeOf(t.files, o))
    {
      OwnerKept(img, cur, place, t.files, Owners(t), ds, o);
    }
    forall o | o in Owners(t) && o !in ds
      ensures Content(cur, Words(cur, o), ModeOf(t.files, o)) == Content(img, Words(img, o), ModeOf(t.files, o))
    {
      OthersKept(img, cur, place, t.files, Owners(t), ds, o);
    }
  }

  /** Writing sectors that nobody owns. */
  lemma KeptFresh(img: Image, cur: Image, t: Tree, place: Places, xs: seq<int>)
    requires OwnedOk(img, t, place) && ChangedOnly(img, cur, xs) && forall x :: x in xs ==> x !in place
    ensures Kept(img, cur, t, place, {}) && OwnedOk(cur, t, place)
  {
    hide Owned, OwnerOk, WellFormed;
    assert Confined(img, cur, place, t.files, {}) by {
      hide MetaCount;
    }
    KeptConfined(img, cur, t, place, {});
  }

  /** Writing the data blocks of one owner. */
  lemma KeptData(img: Image, cur: Image, t: Tree, place: Places, d: int)
    requires OwnedOk(img, t, place) && d in Owners(t) && Words(img, d)[1] >= 0
    requires ChangedOnly(img, cur, Blocks(img, Words(img, d), ModeOf(t.files, d), Words(img, d)[1]))
    ensures Kept(img, cur, t, place, {d}) && OwnedOk(cur, t, place)
  {
    ConfinedData(img, cur, t, place, d);
    KeptConfined(img, cur, t, place, {d});
  }

  lemma ConfinedData(img: Image, cur: Image, t: Tree, place: Places, d: int)
    requires OwnedOk(img, t, place) && d in Owners(t) && Words(img, d)[1] >= 0
    requires ChangedOnly(img, cur, Blocks(img, Words(img, d), ModeOf(t.files, d), Words(img, d)[1]))
    ensures Confined(img, cur, place, t.files, {d})
  {
    hide WellFormed, Words, Blocks, Owned, MetaCount;
    var mode, h := ModeOf(t.files, d), Words(img, d);
    var own, b := Owned(img, d, mode), Blocks(img, h, mode, h[1]);
    assert OwnerOk(img, d, mode, place);
    forall x | x in b
      ensures x in place && place[x].0 == d && place[x].1 >= MetaCount(img, d, mode)
    {
      var k :| 0 <= k < |b| && b[k] == x;
      DataBlockOwned(img, d, mode, k);
      assert own[MetaCount(img, d, mode) + k] == x;
    }
  }

  /** What an owner's headers and sectors are good for. */
  lemma OwnerFacts(img: Image, t: Tree, place: Places, o: int)
    requires OwnedOk(img, t, place) && o in Owners(t)
    ensures OnDisk(o) && WellFormed(img, Words(img, o), ModeOf(t.files, o)) && Words(img, o)[1] >= 0
    ensures o in place
    ensures forall x :: x in Owned(img, o, ModeOf(t.files, o)) ==> x in place && place[x].0 == o
  {
    hide Owned, Words;
    var own := Owned(img, o, ModeOf(t.files, o));
    assert OwnerOk(img, o, ModeOf(t.files, o), place) && own[0] == o;
    forall x | x in own
      ensures x in place && place[x].0 == o
    {
      var k :| 0 <= k < |own| && own[k] == x;
    }
  }

  /** The state right after a new file's header s and index blocks are written: s and its blocks are owned,
      and nobody else has lost anything. */
  lemma NewFileOwned(img0: Image, img1: Image, img2: Image, t: Tree, place: Places, bits0: Bits, s: int32, bitsS: Bits,
                     bits2: Bits, h: Header, n: int32, found: seq<int32>, t2: Tree)
    requires OwnedOk(img0, t, place) && AllMarked(bits0, place)
    requires t2.files == t.files + {s as int} && t2.dirs == t.dirs
    requires s in ClearSet(bits0) && bitsS == bits0[s := true]
    requires Allocated(bitsS, bits2, img1, h, n, found) && Fits(|ClearSet(bitsS)|, n) && h[1] == n
    requires n == SectorCount(h[0])
    requires ChangedOnly(img0, img1, Entries(h, IndexCount(n))) && ChangedOnly(img1, img2, [s as int])
    requires Words(img2, s) == h
    ensures s as int !in Owners(t)
    ensures Kept(img0, img2, t, place, {})
    ensures OwnedOk(img2, t2, place + PlacesOf(s, Owned(img2, s, 1)))
    ensures WellFormed(img2, h, 1)
    ensures bits2 == Marked(bits0, Owned(img2, s, 1)) && s as int in ClearSet(bits0)
    ensures AllMarked(bits2, place + PlacesOf(s, Owned(img2, s, 1)))
    ensures Leaked(bits0, place, bits2, place + PlacesOf(s, Owned(img2, s, 1)), {})
  {
    hide *;
    FitsBound(|ClearSet(bitsS)|, n);
    var index, data := Entries(h, IndexCount(n)), Blocks(img1, h, 1, n);
    BlocksDistinct(bitsS, bits2, img1, h, n, found);
    ClearFacts(bits0, s, bitsS, place, index + data);
    assert forall x :: x in index ==> x in index + data;
    KeptFresh(img0, img1, t, place, index);
    NotAnOwner(img0, t, place, s);
    NewFileWellFormed(img1, h, n);
    ChangedAway(img1, img2, s, index);
    KeptFresh(img1, img2, t, place, [s as int]);
    KeptTrans(img0, img1, img2, t, place, {}, {}, {});
    ClaimsKept(img1, img2, h, 1);
    JoinOwners(img2, t, place, s, 1, t2, index + data);
    MarkedBoth(bits0, s, bitsS, index + data, bits2, place, Owned(img2, s, 1));
  }

  /** The same moment when room for the index blocks may have been lacking: the old nodes are safe, but some
      block of the new file is missing exactly when it was. */
  lemma NewFileHeader(img0: Image, img1: Image, img2: Image, t: Tree, place: Places, bits0: Bits, s: int32, bitsS: Bits,
                      bits2: Bits, h: Header, n: int32, found: seq<int32>)
    requires OwnedOk(img0, t, place) && AllMarked(bits0, place)
    requires s in ClearSet(bits0) && bitsS == bits0[s := true]
    requires Allocated(bitsS, bits2, img1, h, n, found)
    requires ChangedOnly(img0, img1, Entries(h, IndexCount(n))) && ChangedOnly(img1, img2, [s as int])
    requires Words(img2, s) == h
    ensures s as int !in Owners(t) && s as int !in place && |ClearSet(bitsS)| == |ClearSet(bits0)| - 1
    ensures forall x :: x in Entries(h, IndexCount(n)) ==> x !in place && OnDisk(x)
    ensures Kept(img0, img2, t, place, {}) && OwnedOk(img2, t, place)
    ensures Blocks(img2, h, 1, n) == Blocks(img1, h, 1, n)
    ensures AllOnDisk(Blocks(img2, h, 1, n)) <==> Fits(|ClearSet(bitsS)|, n)
  {
    hide Words, Kept, OwnedOk, Fits, FindRun, AllMarked, Owners, ClearSet, SectorOf, ChangedOnly;
    var index := Entries(h, IndexCount(n));
    MissingBlocks(bitsS, bits2, img1, h, n, found);
    IndexFound(bitsS, bits2, img1, h, n, found);
    ClearFacts(bits0, s, bitsS, place, index);
    KeptFresh(img0, img1, t, place, index);
    KeptFresh(img1, img2, t, place, [s as int]);
    KeptTrans(img0, img1, img2, t, place, {}, {}, {});
    NotAnOwner(img0, t, place, s);
    ChangedAway(img1, img2, s, index);
    forall k | 0 <= k < n
      ensures SectorOf(img2, h, 1, k) == SectorOf(img1, h, 1, k)
    {
      SectorOfKept(img1, img2, h, n, k);
    }
  }

  lemma SectorOfKept(img: Image, cur: Image, h: Header, n: int32, k: nat)
    requires k < n <= 960 && forall x :: x in Entries(h, IndexCount(n)) ==> Sec(cur, x) == Sec(img, x)
    ensures SectorOf(cur, h, 1, k) == SectorOf(img, h, 1, k)
  {
    assert Entries(h, IndexCount(n))[k / 32] == h[2 + k / 32];
  }

  lemma IndexFound(bitsS: Bits, bits2: Bits, img: Image, h: Header, n: int32, found: seq<int32>)
    requires Allocated(bitsS, bits2, img, h, n, found)
    ensures forall x :: x in Entries(h, IndexCount(n)) ==> x in ClearSet(bitsS)
  {
    var e := Entries(h, IndexCount(n));
    forall x | x in e
      ensures x in ClearSet(bitsS)
    {
      var j :| 0 <= j < |e| && e[j] == x;
      assert found[33 * j] == x;
    }
  }

  lemma FitsBound(c: nat, n: int32)
    requires Fits(c, n)
    ensures 0 <= n <= 960
  {
  }

  lemma NewFileWellFormed(img: Image, h: Header, n: int32)
    requires h[1] == n && n == SectorCount(h[0]) && 0 <= n <= 960
    requires Distinct(Entries(h, IndexCount(n)) + Blocks(img, h, 1, n))
    requires AllOnDisk(Entries(h, IndexCount(n)) + Blocks(img, h, 1, n))
    ensures WellFormed(img, h, 1) && Claims(img, h, 1) == Entries(h, IndexCount(n)) + Blocks(img, h, 1, n)
  {
    hide Blocks, Entries, Distinct;
  }

  lemma ChangedAway(img: Image, cur: Image, s: int, xs: seq<int>)
    requires ChangedOnly(img, cur, [s]) && s !in xs
    ensures forall x :: x in xs ==> Sec(cur, x) == Sec(img, x)
  {
  }

  lemma NotAnOwner(img: Image, t: Tree, place: Places, s: int)
    requires OwnedOk(img, t, place) && s !in place
    ensures s !in Owners(t)
  {
    if s in Owners(t) {
      OwnerFacts(img, t, place, s);
      assert false;
    }
  }

  /** A node whose sectors nobody owned becomes an owner. */
  lemma JoinOwners(img: Image, t: Tree, place: Places, s: int, mode: int, t2: Tree, claims: seq<int>)
    requires OwnedOk(img, t, place) && OnDisk(s) && s !in place && s !in Owners(t) && (mode == 0 || mode == 1)
    requires t2.files == (if mode == 1 then t.files + {s} else t.files)
    requires t2.dirs == (if mode == 1 then t.dirs else t.dirs + {s})
    requires mode == 0 ==> Words(img, s)[0] == 160
    requires WellFormed(img, Words(img, s), mode) && claims == Claims(img, Words(img, s), mode)
    requires Distinct(claims) && s !in claims && forall x :: x in claims ==> OnDisk(x) && x !in place
    ensures OwnedOk(img, t2, place + PlacesOf(s, Owned(img, s, mode)))
    ensures Owned(img, s, mode) == [s] + claims
  {
    hide PlaceOk, WellFormed, Words, Claims, PlacesOf;
    assert Distinct([s] + claims);
    AddOwner(img, place, t.files, Owners(t), s, mode, t2.files);
    assert Owners(t2) == Owners(t) + {s};
  }

  lemma MarkedBoth(bits0: Bits, s: int32, bitsS: Bits, claims: seq<int>, bits2: Bits, place: Places, own: seq<int>)
    requires AllMarked(bits0, place) && OnDisk(s) && bitsS == bits0[s := true] && bits2 == Marked(bitsS, claims)
    requires own == [s as int] + claims && AllOnDisk(own) && s in ClearSet(bits0)
    requires forall x :: x in claims ==> x in ClearSet(bits0)
    ensures bits2 == Marked(bits0, own) && AllMarked(bits2, place + PlacesOf(s, own))
    ensures Leaked(bits0, place, bits2, place + PlacesOf(s, own), {})
  {
  }

  /** Sectors found clear are not owned. */
  lemma ClearFacts(bits0: Bits, s: int32, bitsS: Bits, place: Places, xs: seq<int>)
    requires AllMarked(bits0, place) && s in ClearSet(bits0) && bitsS == bits0[s := true]
    requires forall x :: x in xs ==> x in ClearSet(bitsS)
    ensures OnDisk(s) && s as int !in place && s as int !in xs && AllOnDisk(xs)
    ensures forall x :: x in xs ==> OnDisk(x) && x !in place && x in ClearSet(bits0)
    ensures |ClearSet(bitsS)| == |ClearSet(bits0)| - 1
  {
    assert ClearSet(bitsS) == ClearSet(bits0) - {s as int};
  }

  /** The state right after a new directory's header s is written. */
  lemma NewDirOwned(img0: Image, img1: Image, t: Tree, place: Places, bits0: Bits, s: int32, bitsS: Bits, bits2: Bits,
                    h: Header, t2: Tree)
    requires OwnedOk(img0, t, place) && AllMarked(bits0, place)
    requires t2.files == t.files && t2.dirs == t.dirs + {s as int}
    requires s in ClearSet(bits0) && bitsS == bits0[s := true]
    requires h[0] == 160 && h[1] == 2 == SectorCount(160) && 2 <= |ClearSet(bitsS)|
    requires FindRun(bitsS, bits2, Entries(h, 2))
    requires ChangedOnly(img0, img1, [s as int]) && Words(img1, s) == h
    ensures s as int !in Owners(t)
    ensures Kept(img0, img1, t, place, {})
    ensures OwnedOk(img1, t2, place + PlacesOf(s, Owned(img1, s, 0)))
    ensures bits2 == Marked(bits0, Owned(img1, s, 0)) && s as int in ClearSet(bits0)
    ensures AllMarked(bits2, place + PlacesOf(s, Owned(img1, s, 0)))
    ensures Leaked(bits0, place, bits2, place + PlacesOf(s, Owned(img1, s, 0)), {})
  {
    hide *;
    DeallocateDirectoryUndoesAllocate(bitsS, bits2, h, 2, Cleared(bits2, Entries(h, 2)));
    ClearFacts(bits0, s, bitsS, place, Entries(h, 2));
    KeptFresh(img0, img1, t, place, [s as int]);
    NotAnOwner(img0, t, place, s);
    NewDirWellFormed(img1, h);
    JoinOwners(img1, t, place, s, 0, t2, Entries(h, 2));
    MarkedBoth(bits0, s, bitsS, Entries(h, 2), bits2, place, Owned(img1, s, 0));
  }

  lemma NewDirWellFormed(img: Image, h: Header)
    requires h[0] == 160 && h[1] == 2 == SectorCount(160) && Distinct(Entries(h, 2)) && AllOnDisk(Entries(h, 2))
    ensures WellFormed(img, h, 0) && Claims(img, h, 0) == Entries(h, 2)
  {
    assert Blocks(img, h, 0, 2) == Entries(h, 2);
  }

  lemma DirTableKept(img: Image, cur: Image, t: Tree, place: Places, ds: set<int>, x: int)
    requires Kept(img, cur, t, place, ds) && x in t.dirs && x !in ds
    ensures DirTable(cur, x) == DirTable(img, x)
  {
    hide Content, Words, PlaceOk, Owned;
    assert x in Owners(t) && ModeOf(t.files, x) == 0;
  }

  lemma TablesKept(img: Image, cur: Image, t: Tree, place: Places, ds: set<int>)
    requires Kept(img, cur, t, place, ds) && ds !! t.dirs
    ensures Tables(cur, t.dirs) == Tables(img, t.dirs)
  {
    hide Kept, DirTable;
    forall x | x in t.dirs
      ensures DirTable(cur, x) == DirTable(img, x)
    {
      DirTableKept(img, cur, t, place, ds, x);
    }
  }

  lemma MapBitsKept(img: Image, cur: Image, t: Tree, place: Places, ds: set<int>)
    requires Kept(img, cur, t, place, ds) && FREE_MAP_SECTOR !in ds
    ensures MapBits(cur) == MapBits(img)
  {
    hide Content, Words, PlaceOk, Owned, Unpack;
    assert FREE_MAP_SECTOR in Owners(t) && ModeOf(t.files, FREE_MAP_SECTOR) == 0;
  }

  lemma HeaderKept(img: Image, cur: Image, t: Tree, place: Places, ds: set<int>, o: int)
    requires Kept(img, cur, t, place, ds) && o in Owners(t)
    ensures Words(cur, o) == Words(img, o) && Owned(cur, o, ModeOf(t.files, o)) == Owned(img, o, ModeOf(t.files, o))
    ensures OwnedOk(cur, t, place)
  {
  }

  lemma FileKept(img: Image, cur: Image, t: Tree, place: Places, ds: set<int>, f: int)
    requires Kept(img, cur, t, place, ds) && f in t.files && f !in ds
    ensures FileAt(cur, f) == FileAt(img, f)
  {
    hide Content, Words, PlaceOk, Owned;
    assert f in Owners(t) && ModeOf(t.files, f) == 1;
  }

  /** Isolation: every file's header is as it was, which is what a file already open goes by, and so are, for every
      node but those in ds, a file's bytes and a directory's table. */
  ghost predicate Isolated(img: Image, cur: Image, t: Tree, ds: set<int>) {
    && (forall f :: f in t.files ==> Words(cur, f) == Words(img, f))
    && (forall f :: f in t.files && f !in ds ==> FileAt(cur, f) == FileAt(img, f))
    && (forall x :: x in t.dirs && x !in ds ==> DirTable(cur, x) == DirTable(img, x))
  }

  lemma KeptIsolated(img: Image, cur: Image, t: Tree, place: Places, ds: set<int>)
    requires Kept(img, cur, t, place, ds)
    ensures Isolated(img, cur, t, ds)
  {
    hide Content, Words, PlaceOk, Owned, FileAt, DirTable, Kept;
    forall f | f in t.files
      ensures Words(cur, f) == Words(img, f)
    {
      HeaderKept(img, cur, t, place, ds, f);
    }
    forall x | x in t.dirs && x !in ds
      ensures DirTable(cur, x) == DirTable(img, x)
    {
      DirTableKept(img, cur, t, place, ds, x);
    }
    forall f | f in t.files && f !in ds
      ensures FileAt(cur, f) == FileAt(img, f)
    {
      FileKept(img, cur, t, place, ds, f);
    }
  }

  /** A user's write to one file keeps the whole invariant and every other node, and memory as far ahead of the
      disk as it was. */
  lemma WriteKeepsDisk(img: Image, cur: Image, t: Tree, place: Places, table: Table, f: int)
    requires DiskOk(img, t, place) && Ahead(img, t, table) && f in t.files && Words(img, f)[1] >= 0
    requires ChangedOnly(img, cur, Blocks(img, Words(img, f), 1, Words(img, f)[1]))
    ensures DiskOk(cur, t, place) && Ahead(cur, t, table) && (InStep(cur, t, table) <==> InStep(img, t, table))
    ensures Words(cur, f) == Words(img, f) && Words(cur, FREE_MAP_SECTOR) == Words(img, FREE_MAP_SECTOR)
    ensures Isolated(img, cur, t, {f})
  {
    hide Content, Words, PlaceOk, Owned, TreeOk, FileAt, AllMarked, Kept, Tables, MapBits, Isolated, DirTable,
         DistinctKeys;
    KeptData(img, cur, t, place, f);
    KeptIsolated(img, cur, t, place, {f});
    TablesKept(img, cur, t, place, {f});
    MapBitsKept(img, cur, t, place, {f});
    DirTableKept(img, cur, t, place, {f}, table[0].sector);
    HeaderKept(img, cur, t, place, {f}, f);
    HeaderKept(img, cur, t, place, {f}, FREE_MAP_SECTOR);
  }

  /** Writes to sectors that the bitmap shows clear are lost on nobody: the disk stays in order as it was. */
  lemma ClearSectorsFree(img: Image, cur: Image, t: Tree, place: Places)
    requires DiskOk(img, t, place)
    requires forall x :: Sec(cur, x) != Sec(img, x) ==> x in ClearSet(MapBits(img))
    ensures DiskOk(cur, t, place) && MapBits(cur) == MapBits(img) && Isolated(img, cur, t, {})
  {
    hide Content, Words, PlaceOk, Owned, TreeOk, FileAt, Kept, Tables, MapBits, Isolated, DirTable;
    assert Confined(img, cur, place, t.files, {}) by {
      hide MetaCount;
    }
    KeptConfined(img, cur, t, place, {});
    KeptIsolated(img, cur, t, place, {});
    TablesKept(img, cur, t, place, {});
    MapBitsKept(img, cur, t, place, {});
    HeaderKept(img, cur, t, place, {}, FREE_MAP_SECTOR);
  }

  /** What is on the disk determines the tree, */
  lemma OneTree(img: Image, t: Tree, t2: Tree)
    requires TreeOk(Tables(img, t.dirs), t) && TreeOk(Tables(img, t2.dirs), t2)
    ensures t == t2
  {
    hide TreeOk, DirTable;
    DirsWithin(img, t, t2);
    DirsWithin(img, t2, t);
    assert t.dirs == t2.dirs;
    TreeIsDetermined(Tables(img, t.dirs), t, t2);
  }

  lemma DirsWithin(img: Image, t: Tree, t2: Tree)
    requires TreeOk(Tables(img, t.dirs), t) && TreeOk(Tables(img, t2.dirs), t2)
    ensures t.dirs <= t2.dirs
  {
    hide DirTable, Key, Dots, DistinctKeys;
    forall x | x in t.dirs
      ensures |DirTable(img, x)| == 10
    {
      assert DirOk(Tables(img, t.dirs)[x], x, t);
    }
    forall x | x in t.dirs
      ensures x in t2.dirs
    {
      UnderNothing(t, x);
      DirectoriesRemain(Tables(img, t.dirs), t, Tables(img, t2.dirs), t2, {}, x);
    }
  }

  /** and with the tree, which sector belongs to whom. */
  lemma OneOwnership(img: Image, t: Tree, place: Places, place2: Places)
    requires OwnedOk(img, t, place) && OwnedOk(img, t, place2)
    ensures place == place2
  {
    hide Words, Owned;
    PlacedAlike(img, t, place, place2);
    PlacedAlike(img, t, place2, place);
    SamePlaces(place, place2);
  }

  lemma SamePlaces(place: Places, place2: Places)
    requires forall x :: x in place ==> x in place2 && place2[x] == place[x]
    requires forall x :: x in place2 ==> x in place
    ensures place == place2
  {
    assert forall x :: x in place <==> x in place2;
    assert forall x :: x in place ==> place[x] == place2[x];
  }

  lemma PlacedAlike(img: Image, t: Tree, place: Places, place2: Places)
    requires OwnedOk(img, t, place) && OwnedOk(img, t, place2)
    ensures forall x :: x in place ==> x in place2 && place2[x] == place[x]
  {
    hide Words, Owned, WellFormed;
    forall x | x in place
      ensures x in place2 && place2[x] == place[x]
    {
      assert PlacedOk(img, x, place, t.files, Owners(t));
      assert OwnerOk(img, place[x].0, ModeOf(t.files, place[x].0), place2);
    }
  }

  /** A disk in order is so in one way only. */
  lemma DiskIsDetermined(img: Image, t: Tree, place: Places, t2: Tree, place2: Places)
    requires DiskOk(img, t, place) && DiskOk(img, t2, place2)
    ensures t == t2 && place == place2
  {
    hide OwnedOk, TreeOk, Tables, AllMarked;
    OneTree(img, t, t2);
    OneOwnership(img, t, place, place2);
  }

  /** A disk whose tables and owners are in order, but one of whose owned sectors the bitmap shows clear, is in
      order under no other tree or ownership either. */
  lemma OwnedButClear(img: Image, t: Tree, place: Places, x: int)
    requires OwnedOk(img, t, place) && TreeOk(Tables(img, t.dirs), t) && x in place && OnDisk(x) && !MapBits(img)[x]
    ensures Disordered(img)
  {
    hide OwnedOk, TreeOk, Tables, MapBits;
    forall t2, place2
      ensures !DiskOk(img, t2, place2)
    {
      if DiskOk(img, t2, place2) {
        OneTree(img, t, t2);
        OneOwnership(img, t, place, place2);
        assert false;
      }
    }
  }

  /** Writing an owner's blocks changes no sector that nobody owns. */
  lemma Elsewhere(img: Image, cur: Image, t: Tree, place: Places, o: int)
    requires OwnedOk(img, t, place) && o in Owners(t)
    requires ChangedOnly(img, cur, Claims(img, Words(img, o), ModeOf(t.files, o)))
    ensures forall x :: x !in place ==> Sec(cur, x) == Sec(img, x)
  {
    hide Words, OwnedOk, Claims, WellFormed;
    OwnerFacts(img, t, place, o);
    assert forall x :: x in Claims(img, Words(img, o), ModeOf(t.files, o)) ==> x in Owned(img, o, ModeOf(t.files, o));
  }

  lemma DirIsOwner(img: Image, t: Tree, place: Places, d: int)
    requires OwnedOk(img, t, place) && d in t.dirs
    ensures d != FREE_MAP_SECTOR && d in Owners(t) && ModeOf(t.files, d) == 0 && FREE_MAP_SECTOR in Owners(t)
    ensures ModeOf(t.files, FREE_MAP_SECTOR) == 0
  {
  }

  lemma SameWords(img: Image, cur: Image, x: int)
    requires Sec(cur, x) == Sec(img, x)
    ensures Words(cur, x) == Words(img, x)
  {
  }

  lemma IsolatedTrans(a: Image, b: Image, c: Image, t: Tree, t1: Tree, d: int, all: set<int>)
    requires Isolated(a, b, t, {}) && Isolated(b, c, t1, all) && t.files <= t1.files && t.dirs <= t1.dirs
    requires forall x :: x in t.files + t.dirs && x in all ==> x == d
    ensures Isolated(a, c, t, {d})
  {
    hide FileAt, DirTable;
  }

  /** Safety: no sector is owned twice, and every owned sector is on the disk and marked in the bitmap. */
  lemma SectorsHaveOneOwner(img: Image, t: Tree, place: Places, a: int, i: nat, b: int, j: nat)
    requires DiskOk(img, t, place) && a in Owners(t) && b in Owners(t)
    requires i < |Owned(img, a, ModeOf(t.files, a))| && j < |Owned(img, b, ModeOf(t.files, b))|
    ensures Owned(img, a, ModeOf(t.files, a))[i] == Owned(img, b, ModeOf(t.files, b))[j] ==> a == b && i == j
    ensures OnDisk(Owned(img, a, ModeOf(t.files, a))[i]) && MapBits(img)[Owned(img, a, ModeOf(t.files, a))[i]]
  {
    hide Owned, Words, MapBits, TreeOk;
    assert OwnerOk(img, a, ModeOf(t.files, a), place) && OwnerOk(img, b, ModeOf(t.files, b), place);
  }

  /** From every directory of a disk in order, ".." leads to the root. */
  lemma UpFromAnywhere(img: Image, t: Tree, place: Places, d: int)
    requires DiskOk(img, t, place) && d in t.dirs
    ensures d in t.depth && Up(Tables(img, t.dirs), d, t.depth[d]) == ROOT_SECTOR
    ensures |DirTable(img, d)| == 10 && Holds(DirTable(img, d), 0, Dots(1)) && DirTable(img, d)[0].sector == d
  {
    hide DirTable, Key, Dots, OwnedOk, AllMarked;
    UpReachesRoot(Tables(img, t.dirs), t, d);
    assert DirOk(Tables(img, t.dirs)[d], d, t);
  }
}
