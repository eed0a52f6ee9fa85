/** What Remove and RemoveDirectory promise, and why each promise is kept. Both look a name up in the directory in
    memory, so both can meet a name that a refused Create or CreateDirectory left there, and then follow whatever
    lies in the sector it names. */
module FileSystemRemovals {
  import opened Bytes
  import opened Storage
  import opened BitMaps
  import opened FileHeaders
  import opened FileHeaderTheorems
  import opened OpenFiles
  import opened Directories
  import opened DirectoryTree
  import opened Ownership
  import opened FileSystemState
  import opened FileSystemResults

  ghost predicate Unchanged(img0: Image, t0: Tree, pl0: Places, u0: Table, img: Image, t: Tree, pl: Places, u: Table,
                            valid: bool) {
    img == img0 && t == t0 && pl == pl0 && u == u0 && (valid <==> InStep(img0, t0, u0))
  }

  /** No slot but one that holds the key differs from the directory on disk. */
  predicate OthersAgree(v: Table, u: Table, key: seq<byte>) {
    |v| == |u| && forall j :: 0 <= j < |u| && !Holds(u, j, key) ==> u[j] == v[j]
  }

  /** The slot that memory lists a key in: the disk lists the key in the same slot, or the name was left behind. */
  lemma KeySlot(img: Image, t: Tree, pl: Places, u: Table, i: int, key: seq<byte>)
    requires DiskOk(img, t, pl) && Ahead(img, t, u) && i == FirstFrom(u, key, 0) != -1
    ensures var v := DirTable(img, u[0].sector);
            && |v| == 10 && v[0] == u[0] && InStep(img, t, v) && OnDisk(u[i].sector)
            && key in Names(u) && Names(u)[key] == Listed(u[i].sector, u[i].IsDir())
            && (if key in Names(v) then u[i] == v[i] && FirstFrom(v, key, 0) == i else StaleSlot(img, v, u, i))
            && forall j :: Holds(u, j, key) <==> j == i
  {
    hide DiskOk, DirTable, MapBits, Key, Names;
    var v := DirTable(img, u[0].sector);
    DirOnDisk(img, t, pl, u[0].sector);
    if u[i] == v[i] {
      NodeAt(img, t, pl, u[0].sector, i);
      assert Holds(v, i, key);
    }
    forall j | Holds(v, j, key)
      ensures Holds(u, j, key)
    {
      assert u[j] == v[j];
    }
  }

  // ---- Remove ----

  /** The sectors of the nodes in g, but for those in xs. */
  function Orphans(pl: Places, g: set<int>, xs: seq<int>): (b: set<int>)
    ensures forall x :: x in b <==> x in pl && pl[x].0 in g && x !in xs
  {
    set x | x in pl && pl[x].0 in g && x !in xs
  }

  /** A node is gone from the tree, with everything under it; every other node, and what is under it, is on the disk
      as before. What was cleared are its header and what its header listed as index blocks, and nothing else of all
      these nodes: the rest has joined the sectors that are marked though nobody owns them. Of an ordinary file these
      are exactly its data blocks. The disk is in order if memory and disk agreed before; if not, a name left behind
      was written with the rest, and no tree and no ownership describe the disk. */
  ghost predicate NodeRemoved(img0: Image, t0: Tree, pl0: Places, u0: Table, key: seq<byte>, img: Image, t: Tree,
                              pl: Places, u: Table, valid: bool) {
    && NameGone(img0, t0, u0, key, img, u)
    && var s := Names(u0)[key].sector;
    var h, g := Words(img0, s), Subtree(t0, s);
    var t1, pl1, xs := WithoutSubtree(t0, s), WithoutOwners(pl0, g), [s as int] + Entries(h, IndexCount(h[1]));
    && s as int in g && h[1] >= 0 && MapBits(img) == Cleared(MapBits(img0), xs)
    && Leaked(MapBits(img0), pl0, MapBits(img), pl1, Orphans(pl0, g, xs))
    && (s as int in t0.files ==>
          && g == {s as int}
          && forall x :: x in Orphans(pl0, g, xs) <==> x in Blocks(img0, h, 1, h[1]))
    && (valid <==> InStep(img0, t0, u0))
    && (if valid then t == t1 && pl == pl1 else Disordered(img))
  }

  /** The directory has lost a name, in memory and on the disk, and no other node has changed. */
  ghost predicate NameGone(img0: Image, t0: Tree, u0: Table, key: seq<byte>, img: Image, u: Table) {
    && |u0| == |u| == 10 && key in Names(u0) && Names(u) == Names(u0) - {key} && DirTable(img, u[0].sector) == u
    && Isolated(img0, img, t0, {u[0].sector as int})
  }

  /** "." or ".." is gone from a directory, and with it any order on the disk. */
  ghost predicate DotRemoved(img0: Image, t0: Tree, u0: Table, key: seq<byte>, img: Image, u: Table, valid: bool) {
    && NameGone(img0, t0, u0, key, img, u)
    && var s := Names(u0)[key].sector;
    var h := Words(img0, s);
    && MapBits(img) == Cleared(MapBits(img0), [s as int] + Entries(h, IndexCount(h[1])))
    && Disordered(img) && !valid
  }

  /** A name left behind is gone, with the sectors xs that the words found where it points were taken to list. The
      disk is in order if no other name was left behind and nobody owned any of xs; otherwise no tree and no
      ownership describe it. */
  ghost predicate LeftOverRemoved(img0: Image, t0: Tree, pl0: Places, u0: Table, key: seq<byte>, xs: seq<int32>,
                                  img: Image, t: Tree, pl: Places, u: Table, valid: bool)
  {
    && NameGone(img0, t0, u0, key, img, u)
    && MapBits(img) == Cleared(MapBits(img0), [Names(u0)[key].sector as int] + xs)
    && (valid <==> OthersAgree(DirTable(img0, u0[0].sector), u0, key) && forall x :: x in xs ==> x as int !in pl0)
    && (if valid then t == t0 && pl == pl0 else Disordered(img))
  }

  /** Everything Remove promises, for any name. */
  ghost predicate RemoveResult(img0: Image, t0: Tree, pl0: Places, u0: Table, name: CString, r: Call<bool>,
                               img: Image, t: Tree, pl: Places, u: Table, valid: bool)
    requires |u0| > 0
  {
    var key, v := Key(name), DirTable(img0, u0[0].sector);
    && (r == Returned(false) <==> key !in Names(u0))
    && (r != Returned(true) ==> Unchanged(img0, t0, pl0, u0, img, t, pl, u, valid))
    && (key in Names(u0) && key in Names(v) ==>
          && r == Returned(true)
          && if key == Dots(1) || key == Dots(2) then DotRemoved(img0, t0, u0, key, img, u, valid)
             else NodeRemoved(img0, t0, pl0, u0, key, img, t, pl, u, valid))
    && (key in Names(u0) && key !in Names(v) ==>
          var h := Words(img0, Names(u0)[key].sector);
          && (r == Returned(true) <==> Clearable(h))
          && (r == Returned(true) ==>
                LeftOverRemoved(img0, t0, pl0, u0, key, Entries(h, IndexCount(h[1])), img, t, pl, u, valid)))
  }

  lemma NotRemoved(img0: Image, t0: Tree, pl0: Places, u0: Table, name: CString, valid: bool)
    requires |u0| > 0 && Key(name) !in Names(u0) && (valid <==> InStep(img0, t0, u0))
    ensures RemoveResult(img0, t0, pl0, u0, name, Returned(false), img0, t0, pl0, u0, valid)
  {
    hide Names, Key, InStep, DirTable;
  }

  lemma RemovalHalted(img0: Image, t0: Tree, pl0: Places, u0: Table, name: CString, valid: bool)
    requires |u0| > 0 && Key(name) in Names(u0) && Key(name) !in Names(DirTable(img0, u0[0].sector))
    requires !Clearable(Words(img0, Names(u0)[Key(name)].sector)) && (valid <==> InStep(img0, t0, u0))
    ensures RemoveResult(img0, t0, pl0, u0, name, Halted, img0, t0, pl0, u0, valid)
  {
    hide Names, Key, InStep, DirTable, Clearable, Words, NodeRemoved, DotRemoved, LeftOverRemoved;
  }

  /** What Remove has done, by the kind of the name. */
  ghost predicate Removal(img0: Image, t0: Tree, pl0: Places, u0: Table, key: seq<byte>, xs: seq<int32>, img: Image,
                          t: Tree, pl: Places, u: Table, valid: bool)
    requires |u0| > 0
  {
    if key !in Names(DirTable(img0, u0[0].sector)) then
        LeftOverRemoved(img0, t0, pl0, u0, key, xs, img, t, pl, u, valid)
    else if key == Dots(1) || key == Dots(2) then DotRemoved(img0, t0, u0, key, img, u, valid)
    else NodeRemoved(img0, t0, pl0, u0, key, img, t, pl, u, valid)
  }

  lemma RemovalDone(img0: Image, t0: Tree, pl0: Places, u0: Table, name: CString, h: Header, img: Image, t: Tree,
                    pl: Places, u: Table, valid: bool)
    requires |u0| > 0 && Key(name) in Names(u0) && h == Words(img0, Names(u0)[Key(name)].sector) && Clearable(h)
    requires Removal(img0, t0, pl0, u0, Key(name), Entries(h, IndexCount(h[1])), img, t, pl, u, valid)
    ensures RemoveResult(img0, t0, pl0, u0, name, Returned(true), img, t, pl, u, valid)
  {
    hide Names, Key, InStep, DirTable, Clearable, Words, NodeRemoved, DotRemoved, LeftOverRemoved, Entries, IndexCount,
         Dots;
  }

  /** What the header of a node on the disk is good for: Deallocate can clear what it takes for index blocks, and the
      node owns them. */
  lemma NodeHeader(img: Image, t: Tree, pl: Places, s: int, h: Header)
    requires OwnedOk(img, t, pl) && s in t.files + t.dirs && h == Words(img, s)
    ensures h[1] >= 0 && Clearable(h) && OnDisk(s)
    ensures forall x :: x in [s] + Entries(h, IndexCount(h[1])) ==> x in pl && pl[x].0 == s
  {
    hide Words, PlaceOk, Entries, Blocks, WellFormed;
    OwnerFacts(img, t, pl, s);
    var mode, own := ModeOf(t.files, s), Owned(img, s, ModeOf(t.files, s));
    if mode == 1 {
      FileEntries(img, h, own);
    } else {
      DirEntries(img, t, s, h, own);
    }
    assert forall x :: x in [s] + Entries(h, IndexCount(h[1])) ==> x in own;
  }

  lemma FileEntries(img: Image, h: Header, own: seq<int>)
    requires WellFormed(img, h, 1) && |own| > 0 && own == [own[0]] + Claims(img, h, 1)
    ensures 0 <= h[1] && Clearable(h) && forall x :: x in Entries(h, IndexCount(h[1])) ==> x in own
  {
    hide Entries, Blocks, Distinct;
  }

  /** A directory's first data block is what Deallocate takes for its index block. */
  lemma DirEntries(img: Image, t: Tree, s: int, h: Header, own: seq<int>)
    requires s in t.dirs && h == Words(img, s) && h[0] == 160
    requires WellFormed(img, h, 0) && |own| > 0 && own == [own[0]] + Claims(img, h, 0)
    ensures 0 <= h[1] && Clearable(h) && forall x :: x in Entries(h, IndexCount(h[1])) ==> x in own
  {
    hide Words, Distinct;
    SectorCounts();
    assert h[1] == 2 && IndexCount(2) == 1;
    assert Claims(img, h, 0)[0] == h[2] == Entries(h, 1)[0];
  }

  lemma NodeSlot(img: Image, t: Tree, pl: Places, v: Table, i: int, key: seq<byte>)
    requires DiskOk(img, t, pl) && InStep(img, t, v) && Holds(v, i, key)
    ensures v[i].sector as int in t.files + t.dirs && i < 10
    ensures if i < 2 then key == Dots(i + 1) else key != Dots(1) && key != Dots(2)
  {
    hide Words, Content, DirTable, PlaceOk, Dots, Key;
    var d := v[0].sector as int;
    assert Tables(img, t.dirs)[d] == v && DirOk(v, d, t);
    DirFacts(Tables(img, t.dirs), t, d);
    if i >= 2 {
      assert SlotOk(v, d, t, i);
    }
  }

  /** Without the nodes in g, one of which is s, and with s and xs of its sectors cleared, ownership is in order. */
  lemma NodesLeave(img: Image, t: Tree, pl: Places, s: int, g: set<int>, xs: seq<int>, bits0: Bits, bits: Bits,
                   t1: Tree)
    requires OwnedOk(img, t, pl) && AllMarked(bits0, pl) && s in g && g <= t.files + t.dirs
    requires t1.files == t.files - g && t1.dirs == t.dirs - g
    requires bits == Cleared(bits0, xs) && forall x :: x in xs ==> x in pl && pl[x].0 == s
    ensures OwnedOk(img, t1, WithoutOwners(pl, g)) && AllMarked(bits, WithoutOwners(pl, g))
    ensures Leaked(bits0, pl, bits, WithoutOwners(pl, g), Orphans(pl, g, xs))
  {
    hide PlaceOk, Words, WithoutOwners, Orphans;
    RemoveOwners(img, pl, t.files, Owners(t), g);
    assert Owners(t) - g == Owners(t1);
    WithoutOwnersIs(pl, g);
  }

  lemma WithoutOwnersIs(pl: Places, g: set<int>)
    ensures forall x :: x in WithoutOwners(pl, g) <==> x in pl && pl[x].0 !in g
  {
  }

  /** Of an ordinary file, only the data blocks are left over. */
  lemma BlocksAreLeft(img: Image, t: Tree, pl: Places, s: int, h: Header)
    requires OwnedOk(img, t, pl) && s in t.files && h == Words(img, s) && h[1] >= 0
    ensures forall x :: x in Orphans(pl, {s}, [s] + Entries(h, IndexCount(h[1]))) <==> x in Blocks(img, h, 1, h[1])
  {
    hide PlaceOk, Words, Entries, Blocks, WellFormed, Orphans;
    var e, b, own := Entries(h, IndexCount(h[1])), Blocks(img, h, 1, h[1]), Owned(img, s, 1);
    OwnerFacts(img, t, pl, s);
    BlockFacts(img, h, 1);
    OwnsExactly(img, t, pl, s);
    HeaderApart(img, t, pl, s, own);
    assert own[1..] == e + b && own == [s] + (e + b);
  }

  /** The sectors placed under an owner are the ones it owns. */
  lemma OwnsExactly(img: Image, t: Tree, pl: Places, o: int)
    requires OwnedOk(img, t, pl) && o in Owners(t)
    ensures forall x :: x in pl && pl[x].0 == o <==> x in Owned(img, o, ModeOf(t.files, o))
  {
    hide Owned, Words, OwnerOk;
    OwnerFacts(img, t, pl, o);
    forall x | x in pl && pl[x].0 == o
      ensures x in Owned(img, o, ModeOf(t.files, o))
    {
      assert PlacedOk(img, x, pl, t.files, Owners(t));
    }
  }

  lemma HeaderApart(img: Image, t: Tree, pl: Places, s: int, own: seq<int>)
    requires OwnedOk(img, t, pl) && s in Owners(t) && own == Owned(img, s, ModeOf(t.files, s))
    ensures own[0] == s && s !in own[1..]
  {
    hide Owned, Words;
    assert OwnerOk(img, s, ModeOf(t.files, s), pl);
    assert forall k :: 0 < k < |own| ==> own[k] != s;
  }

  /** The state that the writes of Remove leave, whatever slot was freed. */
  ghost predicate Freed(img0: Image, t0: Tree, pl0: Places, u0: Table, i: int, key: seq<byte>, xs: seq<int>,
                        img: Image, u: Table) {
    && DiskOk(img0, t0, pl0) && Ahead(img0, t0, u0)
    && i == FirstFrom(u0, key, 0) && i != -1 && u == u0[i := u0[i].SetInUse(false)]
    && Kept(img0, img, t0, pl0, {u0[0].sector as int, FREE_MAP_SECTOR}) && DirTable(img, u0[0].sector) == u
    && MapBits(img) == Cleared(MapBits(img0), xs)
  }

  lemma FreedName(img0: Image, t0: Tree, pl0: Places, u0: Table, i: int, key: seq<byte>, xs: seq<int>, img: Image,
                  u: Table)
    requires Freed(img0, t0, pl0, u0, i, key, xs, img, u)
    ensures NameGone(img0, t0, u0, key, img, u) && OwnedOk(img, t0, pl0)
    ensures forall x :: x in t0.dirs && x != u0[0].sector ==> DirTable(img, x) == DirTable(img0, x)
    ensures Tables(img, t0.dirs) == Tables(img0, t0.dirs)[u0[0].sector as int := u]
    ensures forall x :: OnDisk(x) && !MapBits(img0)[x] ==> !MapBits(img)[x]
  {
    hide DiskOk, Ahead, DirTable, MapBits, OwnedOk, Kept, Isolated, Key, Names, FirstFrom, Cleared, Tables;
    var d := u0[0].sector as int;
    KeySlot(img0, t0, pl0, u0, i, key);
    AheadKeys(img0, t0, u0);
    SlotHolds(u0, i, key);
    FreedNames(u0, i, key);
    FlagBits(u0[i], false);
    NodesIsolated(img0, img, t0, pl0, d);
    TablesButOne(img0, img, t0, t0, pl0, d);
    KeptOwned(img0, img, t0, pl0, {d, FREE_MAP_SECTOR});
  }

  lemma FreedNow(img0: Image, t0: Tree, pl0: Places, u0: Table, i: int, key: seq<byte>, xs: seq<int>, img: Image,
                 u: Table)
    requires DiskOk(img0, t0, pl0) && Ahead(img0, t0, u0)
    requires i == FirstFrom(u0, key, 0) != -1 && u == u0[i := u0[i].SetInUse(false)]
    requires Kept(img0, img, t0, pl0, {u0[0].sector as int, FREE_MAP_SECTOR}) && DirTable(img, u0[0].sector) == u
    requires MapBits(img) == Cleared(MapBits(img0), xs)
    ensures Freed(img0, t0, pl0, u0, i, key, xs, img, u)
  {
  }

  /** Only a name left behind can point at a header that Deallocate fails on. */
  lemma OnlyLeftOversHalt(img: Image, t: Tree, pl: Places, u: Table, i: int, key: seq<byte>, s: int, h: Header)
    requires DiskOk(img, t, pl) && Ahead(img, t, u) && i == FirstFrom(u, key, 0) != -1
    requires s == u[i].sector && h == Words(img, s) && !Clearable(h)
    ensures key !in Names(DirTable(img, u[0].sector))
  {
    hide DirTable, MapBits, OwnedOk, AllMarked, TreeOk, Key, Names, FirstFrom, Words, Clearable, InStep;
    var v := DirTable(img, u[0].sector);
    KeySlot(img, t, pl, u, i, key);
    if key in Names(v) {
      SlotHolds(v, i, key);
      NodeSlot(img, t, pl, v, i, key);
      NodeHeader(img, t, pl, s, h);
      assert false;
    }
  }

  lemma ClearableEntries(h: Header)
    requires Clearable(h)
    ensures AllOnDisk(Entries(h, IndexCount(h[1])))
  {
  }

  lemma DotIsDisordered(img0: Image, t0: Tree, u0: Table, key: seq<byte>, img: Image, u: Table)
    requires DotRemoved(img0, t0, u0, key, img, u, false)
    ensures Disordered(img)
  {
  }

  /** The cases of Remove, told apart by the slot. */
  lemma RemovedSo(img0: Image, t0: Tree, pl0: Places, u0: Table, i: int, key: seq<byte>, xs: seq<int32>, img: Image,
                  t: Tree, pl: Places, u: Table, valid: bool)
    requires DiskOk(img0, t0, pl0) && Ahead(img0, t0, u0) && i == FirstFrom(u0, key, 0) != -1
    requires if key !in Names(DirTable(img0, u0[0].sector))
             then LeftOverRemoved(img0, t0, pl0, u0, key, xs, img, t, pl, u, valid)
             else if i < 2 then DotRemoved(img0, t0, u0, key, img, u, valid)
             else NodeRemoved(img0, t0, pl0, u0, key, img, t, pl, u, valid)
    ensures Removal(img0, t0, pl0, u0, key, xs, img, t, pl, u, valid)
  {
    hide DiskOk, DirTable, MapBits, Key, Names, FirstFrom, NodeRemoved, DotRemoved, LeftOverRemoved, Dots, InStep;
    var v := DirTable(img0, u0[0].sector);
    KeySlot(img0, t0, pl0, u0, i, key);
    if key in Names(v) {
      SlotHolds(v, i, key);
      NodeSlot(img0, t0, pl0, v, i, key);
    }
  }

  lemma SlotHolds(t: Table, i: int, key: seq<byte>)
    requires i == FirstFrom(t, key, 0) != -1
    ensures Holds(t, i, key)
  {
  }

  lemma FreedParts(img0: Image, t0: Tree, pl0: Places, u0: Table, i: int, key: seq<byte>, xs: seq<int>, img: Image,
                   u: Table)
    requires Freed(img0, t0, pl0, u0, i, key, xs, img, u)
    ensures DiskOk(img0, t0, pl0) && Ahead(img0, t0, u0) && i == FirstFrom(u0, key, 0) != -1
    ensures u == u0[i := u0[i].SetInUse(false)] && DirTable(img, u0[0].sector) == u
    ensures MapBits(img) == Cleared(MapBits(img0), xs)
    ensures Kept(img0, img, t0, pl0, {u0[0].sector as int, FREE_MAP_SECTOR})
    ensures OwnedOk(img0, t0, pl0) && AllMarked(MapBits(img0), pl0) && TreeOk(Tables(img0, t0.dirs), t0)
    ensures |u0| == 10 && u0[0].sector as int in t0.dirs
  {
    hide DirTable, MapBits, OwnedOk, AllMarked, TreeOk, Kept, Cleared, Names, Key, FirstFrom;
    DiskParts(img0, t0, pl0, u0);
  }

  /** The slot of a node on the disk was freed, from slot 2 on. */
  lemma NodeLeft(img0: Image, img: Image, t0: Tree, pl0: Places, u0: Table, i: int, key: seq<byte>, s: int32, h: Header,
                 xs: seq<int>, u: Table) returns (valid: bool)
    requires xs == [s as int] + Entries(h, IndexCount(h[1])) && Freed(img0, t0, pl0, u0, i, key, xs, img, u)
    requires 2 <= i < |u0| && s == u0[i].sector && h == Words(img0, s) && key in Names(DirTable(img0, u0[0].sector))
    ensures var g := Subtree(t0, s);
            var t, pl := if valid then WithoutSubtree(t0, s) else t0, if valid then WithoutOwners(pl0, g) else pl0;
            && NodeRemoved(img0, t0, pl0, u0, key, img, t, pl, u, valid)
            && if valid then DiskOk(img, t, pl) && InStep(img, t, u) else Disordered(img)
  {
    hide *;
    var d, g, t := u0[0].sector as int, Subtree(t0, s), WithoutSubtree(t0, s);
    FreedParts(img0, t0, pl0, u0, i, key, xs, img, u);
    FreedName(img0, t0, pl0, u0, i, key, xs, img, u);
    KeySlot(img0, t0, pl0, u0, i, key);
    SlotHolds(u0, i, key);
    SlotHolds(DirTable(img0, d), i, key);
    NodeSlot(img0, t0, pl0, DirTable(img0, d), i, key);
    NodeHeader(img0, t0, pl0, s, h);
    TableThere(img0, t0, d);
    var v := DirTable(img0, d);
    RemoveNode(Tables(img0, t0.dirs), t0, d, i, key, s, v[i := v[i].SetInUse(false)]);
    SubtreeParts(t0, s);
    NodesLeave(img, t0, pl0, s, g, xs, MapBits(img0), MapBits(img), t);
    if s as int in t0.files {
      FileAlone(Tables(img0, t0.dirs), t0, s);
      BlocksAreLeft(img0, t0, pl0, s, h);
    }
    valid := InStep(img0, t0, u0);
    if valid {
      AgreeNow(img0, t0, u0);
      TablesWithout(img0, img, t0, d, s, u);
      InOrderNow(img, t, WithoutOwners(pl0, g), d, u);
    } else {
      var j := LeftBehind(img0, t0, u0);
      ApartFrom(t0, s, d);
      StaleNameWritten(img0, t0, pl0, img, u0, u, i, j, {s as int});
    }
    NodeIsRemoved(img0, t0, pl0, u0, key, s, h, xs, img, u, valid);
  }

  lemma TableThere(img: Image, t: Tree, d: int)
    requires d in t.dirs
    ensures Tables(img, t.dirs)[d] == DirTable(img, d)
  {
  }

  lemma SubtreeParts(t: Tree, s: int)
    ensures Subtree(t, s) <= t.files + t.dirs
    ensures WithoutSubtree(t, s).files == t.files - Subtree(t, s) && WithoutSubtree(t, s).dirs == t.dirs - Subtree(t, s)
  {
  }

  lemma ApartFrom(t: Tree, s: int, d: int)
    requires d in t.dirs && d !in Subtree(t, s)
    ensures !Under(t, d, {s})
  {
  }

  lemma AgreeNow(img: Image, t: Tree, u: Table)
    requires InStep(img, t, u)
    ensures |u| == 10 && u == DirTable(img, u[0].sector)
  {
  }

  lemma TablesWithout(img0: Image, img: Image, t0: Tree, d: int, s: int, u: Table)
    requires Tables(img, t0.dirs) == Tables(img0, t0.dirs)[d := u] && d in t0.dirs && d !in Subtree(t0, s)
    ensures Tables(img, WithoutSubtree(t0, s).dirs) == (Tables(img0, t0.dirs) - Subtree(t0, s))[d := u]
  {
    hide DirTable, Subtree;
    forall x | x in t0.dirs
      ensures DirTable(img, x) == Tables(img0, t0.dirs)[d := u][x]
    {
      assert Tables(img, t0.dirs)[x] == DirTable(img, x);
    }
  }

  lemma InOrderNow(img: Image, t: Tree, pl: Places, d: int, u: Table)
    requires OwnedOk(img, t, pl) && AllMarked(MapBits(img), pl) && TreeOk(Tables(img, t.dirs), t)
    requires |u| == 10 && u[0].sector == d && d in t.dirs && DirTable(img, d) == u
    ensures DiskOk(img, t, pl) && InStep(img, t, u)
  {
  }

  lemma NodeIsRemoved(img0: Image, t0: Tree, pl0: Places, u0: Table, key: seq<byte>, s: int32, h: Header, xs: seq<int>,
                      img: Image, u: Table, valid: bool)
    requires NameGone(img0, t0, u0, key, img, u) && s == Names(u0)[key].sector && h == Words(img0, s) && h[1] >= 0
    requires xs == [s as int] + Entries(h, IndexCount(h[1])) && s as int in Subtree(t0, s)
    requires MapBits(img) == Cleared(MapBits(img0), xs)
    requires var g := Subtree(t0, s);
             && Leaked(MapBits(img0), pl0, MapBits(img), WithoutOwners(pl0, g), Orphans(pl0, g, xs))
             && (s as int in t0.files ==>
                   g == {s as int} && forall x :: x in Orphans(pl0, g, xs) <==> x in Blocks(img0, h, 1, h[1]))
    requires (valid <==> InStep(img0, t0, u0)) && (valid || Disordered(img))
    ensures NodeRemoved(img0, t0, pl0, u0, key, img, if valid then WithoutSubtree(t0, s) else t0,
                        if valid then WithoutOwners(pl0, Subtree(t0, s)) else pl0, u, valid)
  {
    hide Names, Words, Subtree, WithoutSubtree, WithoutOwners, DirTable, NameGone, MapBits, Cleared, Entries, Leaked,
         Blocks, InStep, Disordered, IndexCount, Orphans;
  }

  /** The slot of "." or ".." was freed. */
  lemma DotLeft(img0: Image, img: Image, t0: Tree, pl0: Places, u0: Table, i: int, key: seq<byte>, s: int32, h: Header,
                xs: seq<int>, u: Table)
    requires xs == [s as int] + Entries(h, IndexCount(h[1])) && Freed(img0, t0, pl0, u0, i, key, xs, img, u)
    requires i < 2 && s == u0[i].sector && h == Words(img0, s)
    ensures DotRemoved(img0, t0, u0, key, img, u, false)
  {
    hide DiskOk, Ahead, DirTable, MapBits, OwnedOk, AllMarked, TreeOk, Kept, Isolated, Key, Names, FirstFrom, Cleared,
         Tables, Disordered, Words, Entries, IndexCount, StaleSlot, Freed;
    FreedParts(img0, t0, pl0, u0, i, key, xs, img, u);
    FreedName(img0, t0, pl0, u0, i, key, xs, img, u);
    KeySlot(img0, t0, pl0, u0, i, key);
    FlagBits(u0[i], false);
    DotGone(img0, t0, pl0, img, u0, u, i);
  }

  lemma AheadKeys(img: Image, t: Tree, u: Table)
    requires Ahead(img, t, u)
    ensures |u| == 10 && u[0].sector as int in t.dirs && DistinctKeys(u)
  {
  }

  lemma KeptOwned(img: Image, cur: Image, t: Tree, pl: Places, ds: set<int>)
    requires Kept(img, cur, t, pl, ds)
    ensures OwnedOk(cur, t, pl)
  {
  }

  /** Every directory's table but d's is as it was. */
  lemma TablesButOne(img0: Image, img: Image, t0: Tree, t: Tree, pl: Places, d: int)
    requires Kept(img0, img, t, pl, {d, FREE_MAP_SECTOR}) && t.dirs == t0.dirs && d in t.dirs
    ensures forall x :: x in t0.dirs && x != d ==> DirTable(img, x) == DirTable(img0, x)
    ensures Tables(img, t.dirs) == Tables(img0, t0.dirs)[d := DirTable(img, d)]
  {
    hide Kept, DirTable;
    forall x | x in t0.dirs && x != d
      ensures DirTable(img, x) == DirTable(img0, x)
    {
      NotTheMap(img0, img, t, pl, {d, FREE_MAP_SECTOR}, x);
      DirTableKept(img0, img, t, pl, {d, FREE_MAP_SECTOR}, x);
    }
  }

  lemma NotTheMap(img: Image, cur: Image, t: Tree, pl: Places, ds: set<int>, x: int)
    requires Kept(img, cur, t, pl, ds) && x in t.dirs
    ensures x != FREE_MAP_SECTOR
  {
  }

  /** Where memory and disk differ, a name was left behind. */
  lemma LeftBehind(img: Image, t: Tree, u: Table) returns (j: int)
    requires Ahead(img, t, u) && !InStep(img, t, u)
    ensures 2 <= j < 10 && StaleSlot(img, DirTable(img, u[0].sector), u, j)
    ensures u[j] != DirTable(img, u[0].sector)[j]
  {
    hide DirTable, MapBits, DistinctKeys;
    var v := DirTable(img, u[0].sector);
    j :| 0 <= j < 10 && u[j] != v[j];
  }

  /** A name left behind that was written to the disk when slot i was freed: no file system in order has it, for
      the sector it points at is not marked. If the disk named a directory in slot i, it is one of gone. */
  lemma StaleNameWritten(img0: Image, t0: Tree, pl0: Places, img: Image, u0: Table, u: Table, i: int, j: int,
                         gone: set<int>)
    requires DiskOk(img0, t0, pl0) && Ahead(img0, t0, u0) && |DirTable(img0, u0[0].sector)| == 10
    requires 2 <= i < 10 && 2 <= j < 10 && i != j && u == u0[i := u0[i].SetInUse(false)]
    requires StaleSlot(img0, DirTable(img0, u0[0].sector), u0, j)
    requires var e := DirTable(img0, u0[0].sector)[i]; e.InUse() ==> !e.IsDir() || e.sector as int in gone
    requires !Under(t0, u0[0].sector, gone)
    requires forall x :: x in t0.dirs && x != u0[0].sector ==> DirTable(img, x) == DirTable(img0, x)
    requires DirTable(img, u0[0].sector) == u
    requires forall x :: OnDisk(x) && !MapBits(img0)[x] ==> !MapBits(img)[x]
    ensures Disordered(img)
  {
    hide DiskOk, DirTable, MapBits, DistinctKeys, Under;
    var d, x := u0[0].sector as int, u0[j].sector as int;
    forall t, pl
      ensures !DiskOk(img, t, pl)
    {
      if DiskOk(img, t, pl) {
        DirRemains(img0, t0, pl0, img, t, pl, u0, u, i, gone);
        NodeAt(img, t, pl, d, j);
        HeaderIsMarked(img, t, pl, x);
        assert false;
      }
    }
  }

  lemma DirRemains(img0: Image, t0: Tree, pl0: Places, img: Image, t: Tree, pl: Places, u0: Table, u: Table, i: int,
                   gone: set<int>)
    requires DiskOk(img0, t0, pl0) && Ahead(img0, t0, u0) && DiskOk(img, t, pl) && |DirTable(img0, u0[0].sector)| == 10
    requires 0 <= i < 10 && u == u0[i := u0[i].SetInUse(false)] && !Under(t0, u0[0].sector, gone)
    requires var e := DirTable(img0, u0[0].sector)[i]; i >= 2 && e.InUse() ==> !e.IsDir() || e.sector as int in gone
    requires forall x :: x in t0.dirs && x != u0[0].sector ==> DirTable(img, x) == DirTable(img0, x)
    requires DirTable(img, u0[0].sector) == u
    ensures u0[0].sector as int in t.dirs
  {
    hide DirTable, Key, MapBits, DistinctKeys, OwnedOk, AllMarked, Words, Dots, Under;
    var d := u0[0].sector as int;
    forall x | x in t0.dirs && x in t.dirs
      ensures Keeps(DirTable(img0, x), DirTable(img, x), gone)
    {
      assert DirOk(Tables(img0, t0.dirs)[x], x, t0);
    }
    DirectoriesRemain(Tables(img0, t0.dirs), t0, Tables(img, t.dirs), t, gone, d);
  }

  /** The slot of a name left behind was freed. */
  lemma LeftOverGone(img0: Image, img: Image, t0: Tree, pl0: Places, u0: Table, i: int, key: seq<byte>,
                     xs: seq<int32>, u: Table) returns (valid: bool)
    requires 0 <= i < |u0| && Freed(img0, t0, pl0, u0, i, key, [u0[i].sector as int] + xs, img, u)
    requires key !in Names(DirTable(img0, u0[0].sector)) && AllOnDisk(xs)
    ensures LeftOverRemoved(img0, t0, pl0, u0, key, xs, img, t0, pl0, u, valid)
    ensures if valid then DiskOk(img, t0, pl0) && InStep(img, t0, u) else Disordered(img)
  {
    hide DiskOk, Ahead, DirTable, MapBits, OwnedOk, AllMarked, TreeOk, Kept, NameGone, Key, Names, FirstFrom,
         Tables, Disordered, Words, Freed, InStep, Under, DistinctKeys;
    var d, s, ys := u0[0].sector as int, u0[i].sector as int, [u0[i].sector as int] + xs;
    var v := DirTable(img0, d);
    FreedParts(img0, t0, pl0, u0, i, key, ys, img, u);
    FreedName(img0, t0, pl0, u0, i, key, ys, img, u);
    KeySlot(img0, t0, pl0, u0, i, key);
    FlagBits(u0[i], false);
    if !OthersAgree(v, u0, key) {
      valid := false;
      var j :| 0 <= j < 10 && j != i && u0[j] != v[j];
      SlotAhead(img0, t0, u0, j);
      UnderNothing(t0, d);
      StaleNameWritten(img0, t0, pl0, img, u0, u, i, j, {});
    } else {
      TableThere(img0, t0, d);
      FreeSlotFree(Tables(img0, t0.dirs), t0, d, i, u);
      valid := forall x :: x in xs ==> x as int !in pl0;
      if !valid {
        var x :| x in xs && x as int in pl0;
        OwnedButClear(img, t0, pl0, x);
      } else {
        NotCleared(MapBits(img0), pl0, s, xs);
        InOrderNow(img, t0, pl0, d, u);
      }
    }
  }

  lemma SlotAhead(img: Image, t: Tree, u: Table, j: int)
    requires Ahead(img, t, u) && 0 <= j < 10 && |u| == 10 && |DirTable(img, u[0].sector)| == 10
    requires u[j] != DirTable(img, u[0].sector)[j]
    ensures 2 <= j && StaleSlot(img, DirTable(img, u[0].sector), u, j)
  {
  }

  lemma NotCleared(bits: Bits, pl: Places, s: int, xs: seq<int32>)
    requires AllMarked(bits, pl) && s in ClearSet(bits) && forall x :: x in xs ==> x as int !in pl
    ensures AllMarked(Cleared(bits, [s] + xs), pl)
  {
  }

  // ---- RemoveDirectory ----

  predicate Empty(u: Table) {
    forall i :: 2 <= i < |u| ==> !u[i].InUse()
  }

  /** Everything RemoveDirectory promises. It asks whether the current directory is empty on the disk, so what gets
      past the question is "." or ".." or a name left behind. The first two leave a disk that no tree and no
      ownership describe. */
  ghost predicate RmdirResult(img0: Image, t0: Tree, pl0: Places, u0: Table, name: CString, r: Call<int>, img: Image,
                              t: Tree, pl: Places, u: Table, valid: bool)
    requires |u0| > 0
  {
    var key, v := Key(name), DirTable(img0, u0[0].sector);
    && (r == Returned(-2) <==> key !in Names(u0))
    && (r == Returned(-1) <==> key in Names(u0) && !Empty(v))
    && (r != Returned(0) ==> Unchanged(img0, t0, pl0, u0, img, t, pl, u, valid))
    && (key in Names(u0) && Empty(v) && key in Names(v) ==>
          && (key == Dots(1) || key == Dots(2)) && r == Returned(0)
          && MapBits(img) == Cleared(MapBits(img0), Owned(img0, Names(u0)[key].sector, 0))
          && Disordered(img) && !valid)
    && (key in Names(u0) && Empty(v) && key !in Names(v) ==>
          var h := Words(img0, Names(u0)[key].sector);
          && (r == Returned(0) || r == Halted) && (r == Returned(0) <==> TestsHold(MapBits(img0), h))
          && (r == Returned(0) ==>
                LeftOverRemoved(img0, t0, pl0, u0, key, Entries(h, DirectCount(h[1])), img, t, pl, u, valid)))
  }

  lemma RmdirRefused(img: Image, t: Tree, pl: Places, u: Table, name: CString, r: int, valid: bool)
    requires |u| > 0 && (valid <==> InStep(img, t, u))
    requires if Key(name) !in Names(u) then r == -2 else !Empty(DirTable(img, u[0].sector)) && r == -1
    ensures RmdirResult(img, t, pl, u, name, Returned(r), img, t, pl, u, valid)
  {
    hide Names, Key, Empty, DirTable, InStep;
  }

  lemma RmdirHalted(img: Image, t: Tree, pl: Places, u: Table, name: CString, h: Header, valid: bool)
    requires |u| > 0 && (valid <==> InStep(img, t, u)) && Empty(DirTable(img, u[0].sector))
    requires Key(name) in Names(u) && Key(name) !in Names(DirTable(img, u[0].sector))
    requires h == Words(img, Names(u)[Key(name)].sector) && !TestsHold(MapBits(img), h)
    ensures RmdirResult(img, t, pl, u, name, Halted, img, t, pl, u, valid)
  {
    hide Names, Key, Empty, DirTable, InStep, Words, TestsHold, MapBits, LeftOverRemoved;
  }

  lemma RmdirDone(img0: Image, t0: Tree, pl0: Places, u0: Table, name: CString, h: Header, img: Image, t: Tree,
                  pl: Places, u: Table, valid: bool)
    requires |u0| > 0 && Empty(DirTable(img0, u0[0].sector)) && Key(name) in Names(u0)
    requires h == Words(img0, Names(u0)[Key(name)].sector)
    requires if Key(name) in Names(DirTable(img0, u0[0].sector))
             then && (Key(name) == Dots(1) || Key(name) == Dots(2)) && Disordered(img) && !valid
                  && MapBits(img) == Cleared(MapBits(img0), Owned(img0, Names(u0)[Key(name)].sector, 0))
             else && TestsHold(MapBits(img0), h)
                  && LeftOverRemoved(img0, t0, pl0, u0, Key(name), Entries(h, DirectCount(h[1])), img, t, pl, u, valid)
    ensures RmdirResult(img0, t0, pl0, u0, name, Returned(0), img, t, pl, u, valid)
  {
    hide Names, Key, Empty, DirTable, InStep, Words, TestsHold, MapBits, LeftOverRemoved, Disordered, Dots, Cleared,
         Owned, Entries;
  }

  lemma DotNamed(img: Image, t: Tree, pl: Places, v: Table, i: int, key: seq<byte>)
    requires DiskOk(img, t, pl) && InStep(img, t, v) && Empty(v) && Holds(v, i, key)
    ensures i < 2 && key == Dots(i + 1) && v[i].sector as int in t.dirs
  {
    hide Words, Content, DirTable, PlaceOk, Dots, Key, DistinctKeys;
    var d := v[0].sector as int;
    assert Tables(img, t.dirs)[d] == v && DirOk(v, d, t);
    DirFacts(Tables(img, t.dirs), t, d);
  }

  /** A directory's header and data sectors are marked, so they can be cleared one after the other. */
  lemma DirSectors(img: Image, t: Tree, pl: Places, d: int, bits: Bits, h: Header)
    requires bits == MapBits(img) && h == Words(img, d) && DiskOk(img, t, pl) && d in t.dirs
    ensures TestsHold(bits, h) && Owned(img, d, 0) == [d] + Entries(h, DirectCount(h[1]))
  {
    hide Words, MapBits, PlaceOk, TreeOk;
    var data := h[2..];
    OwnerFacts(img, t, pl, d);
    assert Claims(img, h, 0) == data[..h[1]] == Entries(h, h[1]);
    forall i | 0 <= i < h[1]
      ensures OnDisk(data[i]) && bits[data[i]]
    {
      assert data[i] == Owned(img, d, 0)[1 + i];
    }
    forall i, k | 0 <= i < k < h[1]
      ensures data[i] != data[k]
    {
      assert Claims(img, h, 0)[i] == data[i] && Claims(img, h, 0)[k] == data[k];
    }
  }

  lemma TestedOnDisk(bits: Bits, h: Header)
    requires TestsHold(bits, h)
    ensures AllOnDisk(Entries(h, DirectCount(h[1])))
  {
    var e := Entries(h, DirectCount(h[1]));
    forall x | x in e
      ensures OnDisk(x)
    {
      var k :| 0 <= k < |e| && e[k] == x;
      assert h[2..][k] == x;
    }
  }

  lemma ClearedWith(bits: Bits, xs: seq<int32>, s: int32)
    requires OnDisk(s)
    ensures Cleared(bits, xs)[s := false] == Cleared(bits, [s as int] + xs)
  {
  }

  /** A directory on disk without its "." or ".." belongs to no file system in order. */
  lemma DotGone(img0: Image, t0: Tree, pl0: Places, img: Image, u0: Table, u: Table, i: int)
    requires DiskOk(img0, t0, pl0) && Ahead(img0, t0, u0) && 0 <= i < 2 && u == u0[i := u0[i].SetInUse(false)]
    requires Isolated(img0, img, t0, {u0[0].sector as int}) && DirTable(img, u0[0].sector) == u
    ensures Disordered(img)
  {
    hide DiskOk, DirTable, DistinctKeys, MapBits, Words, FileAt;
    FlagBits(u0[i], false);
    forall t, pl
      ensures !DiskOk(img, t, pl)
    {
      if DiskOk(img, t, pl) {
        UnderNothing(t0, u0[0].sector);
        DirRemains(img0, t0, pl0, img, t, pl, u0, u, i, {});
        TableInOrder(img, t, pl, u0[0].sector);
        assert false;
      }
    }
  }
}
