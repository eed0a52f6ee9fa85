/** The file system: names, headers, bitmap and directories kept together. */
module FileSystems {
  import opened Bytes
  import opened Storage
  import opened BitMaps
  import opened FileHeaders
  import opened FileHeaderTheorems
  import opened OpenFiles
  import opened Directories
  import opened DirectoryTree
  import opened Ownership
  import opened FileSystemState
  import opened FileSystemResults
  import opened FileSystemRemovals

  /** freeMap->FetchFrom(file) for a new BitMap. */
  method FetchMap(disk: SynchDisk, file: OpenFile) returns (freeMap: BitMap)
    requires WellFormed(disk.sectors, file.hdr.AsWords(), 0)
    ensures fresh(freeMap)
    ensures file.hdr.AsWords() == Words(disk.sectors, FREE_MAP_SECTOR) && Length(file.hdr.AsWords()) == 128 ==>
              freeMap.bits == MapBits(disk.sectors)
  {
    hide WellFormed, Content, Words, Unpack, Pack;
    freeMap := new BitMap();
    WellFormedIsLegible(disk.sectors, file.hdr.AsWords(), 0, 0, 128);
    var bytes := FetchObject(disk, file, Pack(freeMap.bits));
    freeMap.bits := Unpack(bytes);
  }

  /** freeMap->WriteBack(file). */
  method StoreMap(disk: SynchDisk, file: OpenFile, freeMap: BitMap)
    requires WellFormed(disk.sectors, file.hdr.AsWords(), 0)
    modifies disk
    ensures ChangedOnly(old(disk.sectors), disk.sectors, old(Claims(disk.sectors, file.hdr.AsWords(), 0)))
    ensures file.hdr.AsWords() == Words(disk.sectors, FREE_MAP_SECTOR) && Length(file.hdr.AsWords()) == 128 ==>
              MapBits(disk.sectors) == freeMap.bits
  {
    hide WellFormed, Content, Words, Unpack, Pack, Claims, ChangedOnly;
    StoreObject(disk, file, Pack(freeMap.bits));
    PackRoundTrip(freeMap.bits);
  }

  /** What the constructor does to format a disk. */
  method FormatDisk(disk: SynchDisk) returns (mapFile: OpenFile, dirFile: OpenFile, dir: Directory, ghost pl: Places)
    modifies disk
    ensures fresh(mapFile.hdr) && fresh(dir) && fresh(dir.table) && dir.table.Length == 10
    ensures dir.table[0].sector == ROOT_SECTOR
    ensures DiskOk(disk.sectors, FRESH_TREE, pl) && NoLeak(MapBits(disk.sectors), pl)
    ensures InStep(disk.sectors, FRESH_TREE, dir.table[..]) && forall i :: 2 <= i < 10 ==> !dir.table[i].InUse()
    ensures mapFile.hdr.AsWords() == Words(disk.sectors, FREE_MAP_SECTOR)
  {
    hide Words, Content, WellFormed, PlaceOk, OwnedOk, TreeOk, AllMarked, NoLeak, Kept, Claims, DirTable, MapBits,
         Tables, DiskOk, InStep;
    hide Blocks, DecodeTable, ChangedOnly, FindRun, Entries, ClearSet, FreshPlaces, Key, Owners;
    SectorCounts();
    dir := new Directory(NUM_DIR_ENTRIES);
    var freeMap := new BitMap();
    var mapHdr := new FileHeader();
    var dirHdr := new FileHeader();
    dir.table[CURRENT_DIRECTORY_INDEX] := dir.table[CURRENT_DIRECTORY_INDEX].(sector := 1);
    dir.table[PARENT_DIRECTORY_INDEX] := dir.table[PARENT_DIRECTORY_INDEX].(sector := 1);
    BlankBits(freeMap.bits);
    freeMap.Mark(FREE_MAP_SECTOR);
    freeMap.Mark(ROOT_SECTOR);
    ghost var bits0 := freeMap.bits;
    var mapOk, mapFound := mapHdr.AllocateDirectory(freeMap, FREE_MAP_FILE_SIZE);
    assert mapOk == Done;
    ghost var bits1 := freeMap.bits;
    FoundOne(bits0, bits1, mapHdr.AsWords());
    var dirOk, dirFound := dirHdr.AllocateDirectory(freeMap, DIRECTORY_FILE_SIZE);
    assert dirOk == Done;
    mapHdr.WriteBack(disk, FREE_MAP_SECTOR);
    ghost var img1 := disk.sectors;
    dirHdr.WriteBack(disk, ROOT_SECTOR);
    ghost var img := disk.sectors;
    WordsKept(img1, img, ROOT_SECTOR, FREE_MAP_SECTOR);
    FormattedOwners(img, bits0, bits1, freeMap.bits, mapHdr.AsWords(), dirHdr.AsWords());
    pl := FreshPlaces(img);
    mapFile, dirFile := FlushFormat(disk, freeMap, dir, pl);
  }

  /** Flush the bitmap and the root directory, once their headers are on disk. */
  method FlushFormat(disk: SynchDisk, freeMap: BitMap, dir: Directory, ghost pl: Places)
    returns (mapFile: OpenFile, dirFile: OpenFile)
    requires OwnedOk(disk.sectors, FRESH_TREE, pl) && AllMarked(freeMap.bits, pl)
    requires dir.table.Length == 10 && forall i :: 0 <= i < 10 ==> dir.table[i].InUse() == (i < 2)
    requires forall i :: 0 <= i < 2 ==>
              dir.table[i].IsDir() && Key(dir.table[i].name) == Dots(i + 1)
              && dir.table[i].sector == ROOT_SECTOR
    modifies disk
    ensures fresh(mapFile.hdr) && mapFile.hdr.AsWords() == Words(disk.sectors, FREE_MAP_SECTOR)
    ensures DiskOk(disk.sectors, FRESH_TREE, pl) && MapBits(disk.sectors) == freeMap.bits
    ensures InStep(disk.sectors, FRESH_TREE, dir.table[..])
  {
    hide Words, Content, WellFormed, OwnedOk, AllMarked, Kept, Claims, DirTable, MapBits, DiskOk, InStep, Key, Dots;
    hide Blocks, DecodeTable, ChangedOnly, Owners;
    ghost var img := disk.sectors;
    FormattedFiles(img, FRESH_TREE, pl);
    mapFile := new OpenFile(disk, FREE_MAP_SECTOR);
    dirFile := new OpenFile(disk, ROOT_SECTOR);
    StoreMap(disk, mapFile, freeMap);
    ghost var img2 := disk.sectors;
    KeptData(img, img2, FRESH_TREE, pl, FREE_MAP_SECTOR);
    HeaderKept(img, img2, FRESH_TREE, pl, {FREE_MAP_SECTOR}, ROOT_SECTOR);
    HeaderKept(img, img2, FRESH_TREE, pl, {FREE_MAP_SECTOR}, FREE_MAP_SECTOR);
    FormattedFiles(img2, FRESH_TREE, pl);
    dir.WriteBack(disk, dirFile);
    KeptData(img2, disk.sectors, FRESH_TREE, pl, ROOT_SECTOR);
    FormatDone(img2, disk.sectors, pl, freeMap.bits, dirFile.hdr.AsWords(), dir.table[..]);
  }

  class FileSystem {
    const disk: SynchDisk
    const freeMapFile: OpenFile
    const directoryFile: OpenFile
    var currentDir: Directory
    ghost var tree: Tree
    ghost var place: Places

    ghost predicate Valid()
      reads this, disk, freeMapFile.hdr, currentDir.table
    {
      && DiskOk(disk.sectors, tree, place)
      && InStep(disk.sectors, tree, currentDir.table[..])
      && freeMapFile.hdr.AsWords() == Words(disk.sectors, FREE_MAP_SECTOR)
    }

    /** The disk is in order, but a refused Create or CreateDirectory may have left names in memory. */
    ghost predicate Usable()
      reads this, disk, freeMapFile.hdr, currentDir.table
    {
      && DiskOk(disk.sectors, tree, place)
      && Ahead(disk.sectors, tree, currentDir.table[..])
      && freeMapFile.hdr.AsWords() == Words(disk.sectors, FREE_MAP_SECTOR)
    }

    /** With format, everything on the disk is replaced; without, t and pl say what is there. */
    constructor (disk: SynchDisk, format: bool, ghost t: Tree, ghost pl: Places)
      requires !format ==> DiskOk(disk.sectors, t, pl)
      modifies disk
      ensures Valid() && Usable() && this.disk == disk && fresh(currentDir) && fresh(currentDir.table)
      ensures fresh(freeMapFile.hdr)
      ensures currentDir.table[0].sector == ROOT_SECTOR
      ensures !format ==> disk.sectors == old(disk.sectors) && tree == t && place == pl
      ensures format ==> tree == FRESH_TREE && NoLeak(MapBits(disk.sectors), place)
                         && forall i :: 2 <= i < 10 ==> !currentDir.table[i].InUse()
    {
      hide Words, Content, WellFormed, DirTable, MapBits, DiskOk, InStep, DecodeTable, NoLeak;
      this.disk := disk;
      var mapFile, dirFile, dir;
      if format {
        ghost var pl0;
        mapFile, dirFile, dir, pl0 := FormatDisk(disk);
        tree := FRESH_TREE;
        place := pl0;
      } else {
        MountFacts(disk.sectors, t, pl);
        mapFile := new OpenFile(disk, FREE_MAP_SECTOR);
        dirFile := new OpenFile(disk, ROOT_SECTOR);
        dir := new Directory(NUM_DIR_ENTRIES);
        dir.FetchFrom(disk, dirFile);
        tree := t;
        place := pl;
      }
      freeMapFile := mapFile;
      directoryFile := dirFile;
      currentDir := dir;
      new;
      ValidWhole();
      ValidIsUsable();
    }

    lemma ValidWhole()
      requires DiskOk(disk.sectors, tree, place) && InStep(disk.sectors, tree, currentDir.table[..])
      requires freeMapFile.hdr.AsWords() == Words(disk.sectors, FREE_MAP_SECTOR)
      ensures Valid()
    {
    }

    lemma ValidIsUsable()
      requires Valid()
      ensures Usable()
    {
      InStepAhead(disk.sectors, tree, place, currentDir.table[..]);
    }

    /** Usable, and whether memory and disk agree. */
    lemma UsableWhole()
      requires DiskOk(disk.sectors, tree, place) && Ahead(disk.sectors, tree, currentDir.table[..])
      requires freeMapFile.hdr.AsWords() == Words(disk.sectors, FREE_MAP_SECTOR)
      ensures Usable() && (Valid() <==> InStep(disk.sectors, tree, currentDir.table[..]))
    {
    }

    lemma UsableParts()
      requires Usable()
      ensures OwnedOk(disk.sectors, tree, place) && AllMarked(MapBits(disk.sectors), place)
      ensures WellFormed(disk.sectors, freeMapFile.hdr.AsWords(), 0) && Length(freeMapFile.hdr.AsWords()) == 128
      ensures freeMapFile.hdr.AsWords() == Words(disk.sectors, FREE_MAP_SECTOR)
      ensures currentDir.table.Length == 10 && currentDir.table[0].sector as int in tree.dirs
      ensures DiskOk(disk.sectors, tree, place) && Ahead(disk.sectors, tree, currentDir.table[..])
      ensures Valid() <==> InStep(disk.sectors, tree, currentDir.table[..])
    {
      hide Content, Words, TreeOk, AllMarked, PlaceOk, WellFormed, DirTable, InStep;
      OwnerFacts(disk.sectors, tree, place, FREE_MAP_SECTOR);
    }

    /** A directory's file, opened by its header sector, takes the table in memory. */
    method WriteDir(dir: Directory, sector: int32, ghost t: Tree, ghost pl: Places)
      requires OwnedOk(disk.sectors, t, pl)
      requires dir.table.Length == 10 && sector as int in t.dirs
      modifies disk
      ensures Kept(old(disk.sectors), disk.sectors, t, pl, {sector as int}) && OwnedOk(disk.sectors, t, pl)
      ensures ChangedOnly(old(disk.sectors), disk.sectors,
                Claims(old(disk.sectors), Words(old(disk.sectors), sector), 0))
      ensures DirTable(disk.sectors, sector) == dir.table[..]
    {
      hide Words, Content, WellFormed, OwnedOk, Kept, Claims, DirTable, Blocks, DecodeTable, ChangedOnly, Owners;
      ghost var img, d := disk.sectors, sector as int;
      DirFile(img, t, pl, d);
      var hdrFile := new OpenFile(disk, sector);
      dir.WriteBack(disk, hdrFile);
      KeptData(img, disk.sectors, t, pl, d);
      HeaderKept(img, disk.sectors, t, pl, {d}, d);
      DirStored(disk.sectors, d, hdrFile.hdr.AsWords(), dir.table[..]);
    }

    lemma NotValid()
      requires Disordered(disk.sectors)
      ensures !Valid()
    {
    }

    /** The bitmap file takes the map, whatever tree t the disk is known to hold. */
    method WriteFreeMap(freeMap: BitMap, ghost t: Tree, ghost pl: Places)
      requires OwnedOk(disk.sectors, t, pl) && freeMapFile.hdr.AsWords() == Words(disk.sectors, FREE_MAP_SECTOR)
      modifies disk
      ensures Kept(old(disk.sectors), disk.sectors, t, pl, {FREE_MAP_SECTOR}) && OwnedOk(disk.sectors, t, pl)
      ensures ChangedOnly(old(disk.sectors), disk.sectors,
                Claims(old(disk.sectors), Words(old(disk.sectors), FREE_MAP_SECTOR), 0))
      ensures MapBits(disk.sectors) == freeMap.bits && freeMapFile.hdr.AsWords() == Words(disk.sectors, FREE_MAP_SECTOR)
    {
      hide Words, Content, WellFormed, OwnedOk, Kept, Claims, DirTable, Blocks, MapBits, ChangedOnly, Owners;
      ghost var img := disk.sectors;
      MapFile(img, t, pl);
      StoreMap(disk, freeMapFile, freeMap);
      KeptData(img, disk.sectors, t, pl, FREE_MAP_SECTOR);
      HeaderKept(img, disk.sectors, t, pl, {FREE_MAP_SECTOR}, FREE_MAP_SECTOR);
    }

    /** Create: a new file of a fixed size, named in the current directory. */
    method Create(name: CString, initialSize: int32) returns (r: Outcome)
      requires Usable()
      modifies this, disk, currentDir.table
      ensures currentDir == old(currentDir) && (r == Refused ==> Usable())
      ensures CreateResult(old(disk.sectors), old(tree), old(place), old(currentDir.table[..]), name, initialSize, r,
                           disk.sectors, tree, place, currentDir.table[..], Valid())
    {
      hide Words, Content, WellFormed, OwnedOk, Kept, Claims, DirTable, Blocks, MapBits, ChangedOnly, Owners, InStep,
           DiskOk, Allocated, Ahead;
      hide Names, Key, ClearSet, AllMarked, Filled, NoLeak, FindRun, LaidOut, AllocateSucceeds, Entries, DistinctKeys,
           Valid, Usable, CreateResult, NamesNew;
      UsableParts();
      ghost var img0, t0, pl0, u0, bits0 := disk.sectors, tree, place, currentDir.table[..], MapBits(disk.sectors);
      TableFacts(img0, t0, pl0, u0);
      var present := currentDir.Find(name);
      if present != -1 {
        EarlyRefusal(img0, t0, pl0, u0, name, initialSize, Valid());
        return Refused;
      }
      var freeMap := FetchMap(disk, freeMapFile);
      var sector := freeMap.Find();
      if sector == -1 {
        EarlyRefusal(img0, t0, pl0, u0, name, initialSize, Valid());
        return Refused;
      }
      ghost var bitsS := freeMap.bits;
      var added := currentDir.Add(name, sector);
      if !added {
        UsableWhole();
        EarlyRefusal(img0, t0, pl0, u0, name, initialSize, Valid());
        return Refused;
      }
      ghost var i :| 2 <= i < 10 && !u0[i].InUse() && currentDir.table[..] == Filled(u0, i, name, sector, false);
      FilledFacts(u0, i, name, sector, false);
      r := AllocateAndFinish(freeMap, sector, u0, bitsS, i, name, initialSize);
    }

    /** The part of Create that follows the directory slot. */
    method AllocateAndFinish(freeMap: BitMap, sector: int32, ghost u0: Table, ghost bitsS: Bits, ghost i: int,
                             ghost name: CString, initialSize: int32) returns (r: Outcome)
      requires |u0| == 10 && DiskOk(disk.sectors, tree, place) && Ahead(disk.sectors, tree, u0)
      requires freeMapFile.hdr.AsWords() == Words(disk.sectors, FREE_MAP_SECTOR)
      requires sector in ClearSet(MapBits(disk.sectors))
      requires bitsS == freeMap.bits == MapBits(disk.sectors)[sector := true]
      requires Key(name) !in Names(u0) && 2 <= i < 10 && !u0[i].InUse()
      requires currentDir.table.Length == 10 && currentDir.table[0] == u0[0] && currentDir.table[..] != u0
      requires NamesNew(u0, currentDir.table[..], i, sector, false)
      requires Names(currentDir.table[..]) == Names(u0)[Key(name) := Listed(sector, false)]
      modifies this, disk, freeMap
      ensures currentDir == old(currentDir) && (r == Refused ==> Usable())
      ensures CreateResult(old(disk.sectors), old(tree), old(place), u0, name, initialSize, r,
                           disk.sectors, tree, place, currentDir.table[..], Valid())
    {
      hide Words, Content, WellFormed, OwnedOk, Kept, Claims, DirTable, Blocks, MapBits, ChangedOnly, Owners, InStep,
           DiskOk, Allocated, Ahead, Names, Key, ClearSet, AllMarked, NoLeak, FindRun, LaidOut, AllocateSucceeds,
           Entries, DistinctKeys, Valid, Usable, CreateResult, NamesNew;
      ghost var img0, t0, pl0, bits0 := disk.sectors, tree, place, MapBits(disk.sectors);
      OneFewer(bits0, sector, bitsS);
      var hdr := new FileHeader();
      var result, found := hdr.Allocate(disk, freeMap, initialSize);
      if result == NoSpace {
        MovedOn(img0, t0, u0, currentDir.table[..], i, sector, false);
        UsableWhole();
        LateRefusal(img0, t0, pl0, u0, name, initialSize, i, currentDir.table[..]);
        return Refused;
      }
      if result == Fault {
        StoppedResult(img0, t0, pl0, u0, name, initialSize, i, disk.sectors, tree, place, currentDir.table[..],
            Valid());
        return Stopped;
      }
      AllocatedHere(bitsS, freeMap.bits, disk.sectors, hdr.AsWords(), hdr.numSectors, found);
      FinishCreate(freeMap, hdr, sector, img0, u0, bitsS, i, name, initialSize, found);
      r := Created;
    }

    /** The last part of Create, once Allocate has returned TRUE: everything is flushed to disk. */
    method FinishCreate(freeMap: BitMap, hdr: FileHeader, sector: int32, ghost img0: Image, ghost u0: Table,
                        ghost bitsS: Bits, ghost i: int, ghost name: CString, ghost size: int32,
                        ghost found: seq<int32>)
      requires DiskOk(img0, tree, place) && Ahead(img0, tree, u0)
      requires freeMapFile.hdr.AsWords() == Words(img0, FREE_MAP_SECTOR)
      requires GetsToAllocate(u0, MapBits(img0), name)
      requires sector in ClearSet(MapBits(img0)) && bitsS == MapBits(img0)[sector := true]
      requires hdr.numBytes == size && hdr.numSectors == SectorCount(size) && 0 <= hdr.numSectors <= 960
      requires Allocated(bitsS, freeMap.bits, disk.sectors, hdr.AsWords(), hdr.numSectors, found)
      requires ChangedOnly(img0, disk.sectors, Entries(hdr.AsWords(), IndexCount(hdr.numSectors)))
      requires AllocateSucceeds(|ClearSet(MapBits(img0))| - 1, SectorCount(size))
      requires currentDir.table.Length == 10 && NamesNew(u0, currentDir.table[..], i, sector, false)
      requires currentDir.table[0] == u0[0]
      requires Names(currentDir.table[..]) == Names(u0)[Key(name) := Listed(sector, false)]
      modifies this, disk
      ensures currentDir == old(currentDir)
      ensures CreateResult(img0, old(tree), old(place), u0, name, size, Created, disk.sectors, tree, place,
                currentDir.table[..], Valid())
    {
      hide Words, Content, WellFormed, OwnedOk, Kept, Claims, DirTable, Blocks, MapBits, ChangedOnly, Owners, InStep,
           DiskOk, Allocated, Ahead;
      hide Names, Key, ClearSet, AllMarked, Leaked, Entries, Valid, CreateResult, NamesNew, Flushed, FileMade,
           WholeFile, GetsToAllocate, Disordered;
      ghost var t0, pl0, u, bits0, h, n := tree, place, currentDir.table[..], MapBits(img0), hdr.AsWords(),
          hdr.numSectors;
      DiskParts(img0, t0, pl0, u0);
      ghost var img1 := disk.sectors;
      hdr.WriteBack(disk, sector);
      ghost var img2 := disk.sectors;
      NewFileHeader(img0, img1, img2, t0, pl0, bits0, sector, bitsS, freeMap.bits, h, n, found);
      DirIsOwner(img0, t0, pl0, u0[0].sector);
      HeaderKept(img0, img2, t0, pl0, {}, FREE_MAP_SECTOR);
      ghost var whole := Fits(|ClearSet(bitsS)|, n) && InStep(img0, t0, u0);
      if whole {
        tree := WithFile(t0, u0[0].sector, i, sector);
        NewFileOwned(img0, img1, img2, t0, pl0, bits0, sector, bitsS, freeMap.bits, h, n, found, tree);
        place := pl0 + PlacesOf(sector, Owned(img2, sector, 1));
      }
      FlushCreate(freeMap, t0, pl0);
      FileIsMade(img0, img2, disk.sectors, t0, pl0, tree, place, u0, u, freeMap.bits, name, sector, size, h, n);
      if whole {
        FileIsWhole(img0, img2, disk.sectors, t0, pl0, tree, place, u0, u, i, sector, h, freeMap.bits);
        ValidWhole();
      } else {
        FileMarks(img0, img1, img2, disk.sectors, t0, pl0, tree, place, u, bitsS, freeMap.bits, sector, h, n, found);
        FileDisorders(img0, t0, pl0, disk.sectors, u0, u, i, name, sector, size);
        NotValid();
      }
      CreatedResult(img0, t0, pl0, u0, name, size, disk.sectors, tree, place, u, sector, Valid());
    }

    /** The writes that end Create: the current directory, then the bitmap. Tree t0 is what was there before. */
    method FlushCreate(freeMap: BitMap, ghost t0: Tree, ghost pl0: Places)
      requires OwnedOk(disk.sectors, tree, place) && freeMapFile.hdr.AsWords() == Words(disk.sectors, FREE_MAP_SECTOR)
      requires OwnedOk(disk.sectors, t0, pl0) && t0.files <= tree.files && t0.dirs == tree.dirs
      requires currentDir.table.Length == 10 && currentDir.table[0].sector as int in tree.dirs
      modifies disk
      ensures OwnedOk(disk.sectors, tree, place) && freeMapFile.hdr.AsWords() == Words(disk.sectors, FREE_MAP_SECTOR)
      ensures Flushed(old(disk.sectors), disk.sectors, tree, place, t0, pl0, currentDir.table[..], freeMap.bits)
      ensures DirTable(disk.sectors, currentDir.table[0].sector) == currentDir.table[..]
    {
      hide Words, Content, WellFormed, OwnedOk, Kept, Claims, DirTable, Blocks, MapBits, ChangedOnly, Owners;
      ghost var img, d := disk.sectors, currentDir.table[0].sector as int;
      DirIsOwner(img, tree, place, d);
      WriteDir(currentDir, currentDir.GetSector(), tree, place);
      ghost var img3 := disk.sectors;
      HeaderKept(img, img3, tree, place, {d}, FREE_MAP_SECTOR);
      WriteFreeMap(freeMap, tree, place);
      KeptTrans(img, img3, disk.sectors, tree, place, {d}, {FREE_MAP_SECTOR}, {d, FREE_MAP_SECTOR});
      DirTableKept(img3, disk.sectors, tree, place, {FREE_MAP_SECTOR}, d);
      FlushElsewhere(img, img3, disk.sectors, t0, pl0, d);
    }

    /** CreateDirectory: an empty directory, named in the current one. */
    method CreateDirectory(name: CString) returns (r: int)
      requires Usable()
      modifies this, disk, currentDir.table
      ensures currentDir == old(currentDir) && (r != 0 ==> Usable())
      ensures MkdirResult(old(disk.sectors), old(tree), old(place), old(currentDir.table[..]), name, r,
                          disk.sectors, tree, place, currentDir.table[..], Valid())
    {
      hide Words, Content, WellFormed, OwnedOk, Kept, Claims, DirTable, Blocks, MapBits, ChangedOnly, Owners, InStep,
           DiskOk, Ahead;
      hide Names, Key, ClearSet, AllMarked, Filled, NoLeak, FindRun, Entries, DistinctKeys, Valid, Usable, MkdirResult,
           NamesNew;
      UsableParts();
      ghost var img0, t0, pl0, u0, bits0 := disk.sectors, tree, place, currentDir.table[..], MapBits(disk.sectors);
      TableFacts(img0, t0, pl0, u0);
      var present := currentDir.Find(name);
      if present != -1 {
        EarlyMkdirRefusal(img0, t0, pl0, u0, name, Valid());
        return -2;
      }
      var freeMap := FetchMap(disk, freeMapFile);
      var sector := freeMap.Find();
      if sector == -1 {
        EarlyMkdirRefusal(img0, t0, pl0, u0, name, Valid());
        return -1;
      }
      ghost var bitsS := freeMap.bits;
      OneFewer(bits0, sector, bitsS);
      var added := currentDir.AddDirectory(name, sector);
      if !added {
        UsableWhole();
        EarlyMkdirRefusal(img0, t0, pl0, u0, name, Valid());
        return -1;
      }
      ghost var i :| 2 <= i < 10 && !u0[i].InUse() && currentDir.table[..] == Filled(u0, i, name, sector, true);
      FilledFacts(u0, i, name, sector, true);
      SectorCounts();
      var hdr := new FileHeader();
      var result, found := hdr.AllocateDirectory(freeMap, DIRECTORY_FILE_SIZE);
      if result == NoSpace {
        MovedOn(img0, t0, u0, currentDir.table[..], i, sector, true);
        UsableWhole();
        LateMkdirRefusal(img0, t0, pl0, u0, name, i, currentDir.table[..]);
        return -1;
      }
      assert HasFreeSlot(u0);
      FinishCreateDirectory(freeMap, hdr, sector, u0, bitsS, i, name);
      r := 0;
    }

    /** The last part of CreateDirectory: everything is flushed to disk, the new directory through its own file. */
    method FinishCreateDirectory(freeMap: BitMap, hdr: FileHeader, sector: int32, ghost u0: Table, ghost bitsS: Bits,
                                 ghost i: int, ghost name: CString)
      requires |u0| == 10 && DiskOk(disk.sectors, tree, place) && Ahead(disk.sectors, tree, u0)
      requires freeMapFile.hdr.AsWords() == Words(disk.sectors, FREE_MAP_SECTOR)
      requires GetsToAllocate(u0, MapBits(disk.sectors), name) && 2 <= |ClearSet(MapBits(disk.sectors))| - 1
      requires sector in ClearSet(MapBits(disk.sectors)) && bitsS == MapBits(disk.sectors)[sector := true]
      requires 2 <= |ClearSet(bitsS)|
      requires hdr.numBytes == 160 && hdr.numSectors == 2 == SectorCount(160)
      requires FindRun(bitsS, freeMap.bits, Entries(hdr.AsWords(), 2))
      requires currentDir.table.Length == 10 && NamesNew(u0, currentDir.table[..], i, sector, true)
      requires currentDir.table[0] == u0[0]
      requires Names(currentDir.table[..]) == Names(u0)[Key(name) := Listed(sector, true)]
      modifies this, disk
      ensures currentDir == old(currentDir)
      ensures MkdirResult(old(disk.sectors), old(tree), old(place), u0, name, 0, disk.sectors, tree, place,
                currentDir.table[..], Valid())
    {
      hide Words, Content, WellFormed, OwnedOk, Kept, Claims, DirTable, Blocks, MapBits, ChangedOnly, Owners, InStep,
           DiskOk, Ahead, Tables;
      hide Names, Key, ClearSet, AllMarked, Leaked, FindRun, Entries, Valid, MkdirResult, NamesNew, GetsToAllocate,
           FreshDir, PlacesOf, DirMade, WholeDir, Disordered;
      ghost var img0, t0, pl0, u, bits0, h := disk.sectors, tree, place, currentDir.table[..], MapBits(disk.sectors),
          hdr.AsWords();
      ghost var d, s := u0[0].sector as int, sector as int;
      DiskParts(img0, t0, pl0, u0);
      hdr.WriteBack(disk, sector);
      ghost var img1 := disk.sectors;
      ghost var t := WithDir(t0, d, i, s);
      NewDirOwned(img0, img1, t0, pl0, bits0, sector, bitsS, freeMap.bits, h, t);
      ghost var pl := pl0 + PlacesOf(s, Owned(img1, s, 0));
      DirIsOwner(img0, t0, pl0, d);
      HeaderKept(img0, img1, t0, pl0, {}, FREE_MAP_SECTOR);
      WriteDir(currentDir, currentDir.GetSector(), t, pl);
      ghost var img2 := disk.sectors;
      ghost var w := WriteNewDir(sector, currentDir.GetSector(), t, pl);
      ghost var img3 := disk.sectors;
      MapFile(img1, t, pl);
      HeaderKept(img1, img2, t, pl, {d}, FREE_MAP_SECTOR);
      HeaderKept(img2, img3, t, pl, {s}, FREE_MAP_SECTOR);
      WriteFreeMap(freeMap, t, pl);
      DirIsMade(img0, img1, img2, img3, disk.sectors, t0, pl0, t, pl, u0, u, i, sector, w, freeMap.bits, name);
      if InStep(img0, t0, u0) {
        tree, place := t, pl;
        DirIsWhole(img0, disk.sectors, t0, pl0, t, pl, u0, u, i, sector, w);
        ValidWhole();
      } else {
        DirMarks(img0, disk.sectors, s);
        DirDisorders(img0, t0, pl0, disk.sectors, u0, u, i, name, sector);
        NotValid();
      }
      MkdirDone(img0, t0, pl0, u0, name, disk.sectors, tree, place, u, sector);
    }

    /** A new directory's table, ".." leading to its parent, goes to disk through the directory's own file. */
    method WriteNewDir(sector: int32, parent: int32, ghost t: Tree, ghost pl: Places) returns (ghost w: Table)
      requires OwnedOk(disk.sectors, t, pl) && sector as int in t.dirs
      modifies disk
      ensures Kept(old(disk.sectors), disk.sectors, t, pl, {sector as int}) && OwnedOk(disk.sectors, t, pl)
      ensures FreshDir(w, sector, parent) && DirTable(disk.sectors, sector) == w
    {
      hide Words, Content, WellFormed, OwnedOk, Kept, Claims, DirTable, ChangedOnly, FreshDir, Key, Dots;
      var newDir := new Directory(NUM_DIR_ENTRIES);
      newDir.table[CURRENT_DIRECTORY_INDEX] := newDir.table[CURRENT_DIRECTORY_INDEX].(sector := sector);
      newDir.table[PARENT_DIRECTORY_INDEX] := newDir.table[PARENT_DIRECTORY_INDEX].(sector := parent);
      w := newDir.table[..];
      NewTableFresh(w, sector, parent);
      WriteDir(newDir, sector, t, pl);
    }

    /** The writes that end Remove and RemoveDirectory: the bitmap, then the current directory. */
    method FlushFreed(freeMap: BitMap, ghost t: Tree, ghost pl: Places)
      requires OwnedOk(disk.sectors, t, pl) && freeMapFile.hdr.AsWords() == Words(disk.sectors, FREE_MAP_SECTOR)
      requires currentDir.table.Length == 10 && currentDir.table[0].sector as int in t.dirs
      modifies disk
      ensures Kept(old(disk.sectors), disk.sectors, t, pl, {currentDir.table[0].sector as int, FREE_MAP_SECTOR})
      ensures MapBits(disk.sectors) == freeMap.bits && freeMapFile.hdr.AsWords() == Words(disk.sectors, FREE_MAP_SECTOR)
      ensures DirTable(disk.sectors, currentDir.table[0].sector) == currentDir.table[..]
    {
      hide Words, Content, WellFormed, OwnedOk, Kept, Claims, DirTable, Blocks, MapBits, ChangedOnly, Owners;
      ghost var img, d := disk.sectors, currentDir.table[0].sector as int;
      DirIsOwner(img, t, pl, d);
      WriteFreeMap(freeMap, t, pl);
      ghost var img1 := disk.sectors;
      WriteDir(currentDir, currentDir.GetSector(), t, pl);
      HeaderKept(img1, disk.sectors, t, pl, {d}, FREE_MAP_SECTOR);
      MapBitsKept(img1, disk.sectors, t, pl, {d});
      KeptTrans(img, img1, disk.sectors, t, pl, {FREE_MAP_SECTOR}, {d}, {d, FREE_MAP_SECTOR});
    }

    /** Remove, as it is written: whatever the name is of, Deallocate takes its header for an ordinary file's, and
        gives back of the sectors only the header and the index blocks. */
    method Remove(name: CString) returns (r: Call<bool>)
      requires Usable()
      modifies this, disk, currentDir.table
      ensures currentDir == old(currentDir) && (r != Returned(true) ==> Usable())
      ensures RemoveResult(old(disk.sectors), old(tree), old(place), old(currentDir.table[..]), name, r,
                           disk.sectors, tree, place, currentDir.table[..], Valid())
    {
      hide *;
      UsableParts();
      ghost var img0, t0, pl0, u0, key := disk.sectors, tree, place, currentDir.table[..], Key(name);
      TableFacts(img0, t0, pl0, u0);
      var sector := currentDir.Find(name);
      if sector == -1 {
        NotRemoved(img0, t0, pl0, u0, name, Valid());
        return Returned(false);
      }
      ghost var i := FirstFrom(u0, key, 0);
      KeySlot(img0, t0, pl0, u0, i, key);
      var fileHdr := new FileHeader();
      fileHdr.FetchFrom(disk, sector);
      var freeMap := FetchMap(disk, freeMapFile);
      var ok := fileHdr.Deallocate(disk, freeMap);
      if !ok {
        OnlyLeftOversHalt(img0, t0, pl0, u0, i, key, sector, fileHdr.AsWords());
        RemovalHalted(img0, t0, pl0, u0, name, Valid());
        return Halted;
      }
      freeMap.Clear(sector);
      var removed := currentDir.Remove(name);
      FinishRemove(freeMap, sector, img0, u0, i, name, fileHdr.AsWords());
      r := Returned(true);
    }

    /** The writes that end Remove, and what they leave. */
    method FinishRemove(freeMap: BitMap, sector: int32, ghost img0: Image, ghost u0: Table, ghost i: int,
                        ghost name: CString, ghost h: Header)
      requires disk.sectors == img0 && DiskOk(img0, tree, place) && Ahead(img0, tree, u0)
      requires freeMapFile.hdr.AsWords() == Words(img0, FREE_MAP_SECTOR)
      requires i == FirstFrom(u0, Key(name), 0) != -1 && sector == u0[i].sector && OnDisk(sector)
      requires h == Words(img0, sector) && Clearable(h)
      requires freeMap.bits == Cleared(MapBits(img0), Entries(h, IndexCount(h[1])))[sector := false]
      requires currentDir.table.Length == 10 && currentDir.table[..] == u0[i := u0[i].SetInUse(false)]
      modifies this, disk
      ensures currentDir == old(currentDir)
      ensures RemoveResult(img0, old(tree), old(place), u0, name, Returned(true), disk.sectors, tree, place,
                           currentDir.table[..], Valid())
    {
      hide *;
      ghost var t0, pl0, u, d, key := tree, place, currentDir.table[..], u0[0].sector as int, Key(name);
      ghost var e := Entries(h, IndexCount(h[1]));
      ghost var xs := [sector as int] + e;
      DiskParts(img0, t0, pl0, u0);
      KeySlot(img0, t0, pl0, u0, i, key);
      ClearedWith(MapBits(img0), e, sector);
      FlagBits(u0[i], false);
      FlushFreed(freeMap, t0, pl0);
      FreedNow(img0, t0, pl0, u0, i, key, xs, disk.sectors, u);
      ghost var t, pl, valid := t0, pl0, false;
      if key !in Names(DirTable(img0, d)) {
        ClearableEntries(h);
        valid := LeftOverGone(img0, disk.sectors, t0, pl0, u0, i, key, e, u);
      } else if i < 2 {
        DotLeft(img0, disk.sectors, t0, pl0, u0, i, key, sector, h, xs, u);
        DotIsDisordered(img0, t0, u0, key, disk.sectors, u);
      } else {
        valid := NodeLeft(img0, disk.sectors, t0, pl0, u0, i, key, sector, h, xs, u);
        t := if valid then WithoutSubtree(t0, sector) else t0;
        pl := if valid then WithoutOwners(pl0, Subtree(t0, sector)) else pl0;
      }
      Settle(valid, t, pl);
      RemovedSo(img0, t0, pl0, u0, i, key, e, disk.sectors, tree, place, u, valid);
      RemovalDone(img0, t0, pl0, u0, name, h, disk.sectors, tree, place, u, Valid());
    }

    /** The tree and the ownership that the disk has now, if it has any. */
    ghost method Settle(valid: bool, t: Tree, pl: Places)
      requires if valid then DiskOk(disk.sectors, t, pl) && InStep(disk.sectors, t, currentDir.table[..])
               else Disordered(disk.sectors)
      requires freeMapFile.hdr.AsWords() == Words(disk.sectors, FREE_MAP_SECTOR)
      modifies this`tree, this`place
      ensures Valid() <==> valid
      ensures if valid then tree == t && place == pl else tree == old(tree) && place == old(place)
    {
      hide DiskOk, InStep, Disordered, Words, Valid;
      if valid {
        tree, place := t, pl;
        ValidWhole();
      } else {
        NotValid();
      }
    }

    /** Open looks the name up in the current directory as it is on disk, whatever the one in memory says. */
    method Open(name: CString) returns (file: OpenFile?)
      requires DiskOk(disk.sectors, tree, place)
      requires currentDir.table.Length == 10 && currentDir.table[0].sector as int in tree.dirs
      ensures file == null <==> Key(name) !in Names(DirTable(disk.sectors, currentDir.table[0].sector))
      ensures file != null ==> fresh(file) && fresh(file.hdr) && file.seekPosition == 0
                               && OpenResult(disk.sectors, tree, DirTable(disk.sectors, currentDir.table[0].sector),
                                  name, file.hdr.AsWords())
    {
      hide Words, Content, WellFormed, DirTable, DiskOk, DecodeTable, Names, Key, OpenResult, Owners;
      ghost var img, d := disk.sectors, currentDir.table[0].sector;
      DirOnDisk(img, tree, place, d);
      var directory := new Directory(NUM_DIR_ENTRIES);
      var currentHdrFile := new OpenFile(disk, currentDir.GetSector());
      directory.FetchFrom(disk, currentHdrFile);
      NamedNodes(img, tree, place, d);
      var sector := directory.Find(name);
      file := null;
      if sector >= 0 {
        file := new OpenFile(disk, sector);
      }
      if file != null {
        Opened(img, tree, place, d, name);
      }
    }

    /** A Write through an open file, seen from the file system: the bytes written replace those at the seek
        position, everything else on the disk reads as before, and the file system stays in the order it was in. */
    method WriteOpened(file: OpenFile, from: array<byte>, numBytes: int, ghost f: int32) returns (result: int)
      requires file.hdr.AsWords() == Words(disk.sectors, f) && f as int in tree.files && Usable()
      requires 0 <= file.seekPosition && file.seekPosition + numBytes < 0x8000_0000
      requires Clip(Length(file.hdr.AsWords()), file.seekPosition, numBytes) <= from.Length
      modifies disk, file
      ensures Usable() && (Valid() <==> old(Valid())) && file.hdr.AsWords() == Words(disk.sectors, f)
      ensures result == Clip(Length(file.hdr.AsWords()), old(file.seekPosition), numBytes)
      ensures file.seekPosition == old(file.seekPosition) + result
      ensures WriteResult(old(disk.sectors), disk.sectors, tree, f, old(file.seekPosition), from[..], result)
    {
      hide Words, Content, WellFormed, DirTable, DiskOk, Owners, InStep, Ahead, Valid, Usable, Splice, Claims, Blocks,
           ChangedOnly, Clip, OwnedOk, WriteResult;
      UsableParts();
      ghost var img := disk.sectors;
      FileIsOwner(img, tree, place, f);
      result := file.Write(disk, from, numBytes);
      WriteKeepsDisk(img, disk.sectors, tree, place, currentDir.table[..], f);
      WroteThere(img, disk.sectors, tree, f, old(file.seekPosition), from[..], result);
      UsableWhole();
    }

    /** ChangeDirectory, as it is written: it does not ask what the name is of. What memory had beside the names on
        the disk is forgotten. */
    method ChangeDirectory(name: CString) returns (r: Call<int>)
      requires Usable()
      modifies this
      ensures tree == old(tree) && place == old(place) && DiskOk(disk.sectors, tree, place)
      ensures r != Returned(0) ==> currentDir == old(currentDir) && Usable()
      ensures r == Returned(0) ==> fresh(currentDir) && fresh(currentDir.table)
      ensures ChdirResult(disk.sectors, tree, old(currentDir.table[..]), name, r, currentDir.table[..])
      ensures Valid() <==> InStep(disk.sectors, tree, currentDir.table[..])
    {
      hide Words, Content, WellFormed, DirTable, DiskOk, Names, Key, Owners, InStep, Ahead, Valid, Usable, StaleSlot,
           Legible, ChdirResult, Fetched, NewTable, Dots;
      UsableParts();
      ghost var img, u0 := disk.sectors, currentDir.table[..];
      var index := currentDir.FindIndex(name);
      if index == -1 {
        ChdirRefused(img, tree, u0, name);
        return Returned(-1);
      }
      KeySlot(img, tree, place, u0, index, Key(name));
      var nextDirFile := new OpenFile(disk, currentDir.table[index].sector);
      var nextDir := new Directory(NUM_DIR_ENTRIES);
      ghost var w := nextDir.table[..];
      NewTableIs(w);
      if !Legible(disk.sectors, nextDirFile.hdr.AsWords(), 0, 0, 160) {
        // the disk's assertion on a sector number, inside FetchFrom
        ChdirHalted(img, tree, place, u0, name);
        return Halted;
      }
      nextDir.FetchFrom(disk, nextDirFile);
      currentDir := nextDir;
      ChdirDone(img, tree, place, u0, name, w, currentDir.table[..]);
      InStepIsValid();
      r := Returned(0);
    }

    lemma InStepIsValid()
      requires DiskOk(disk.sectors, tree, place) && freeMapFile.hdr.AsWords() == Words(disk.sectors, FREE_MAP_SECTOR)
      ensures Valid() <==> InStep(disk.sectors, tree, currentDir.table[..])
    {
    }

    /** RemoveDirectory as it is written: it asks whether the current directory is empty, not the one named. */
    method RemoveDirectory(name: CString) returns (r: Call<int>)
      requires Usable()
      modifies this, disk, currentDir.table
      ensures currentDir == old(currentDir) && (r != Returned(0) ==> Usable())
      ensures RmdirResult(old(disk.sectors), old(tree), old(place), old(currentDir.table[..]), name, r,
                          disk.sectors, tree, place, currentDir.table[..], Valid())
    {
      hide *;
      UsableParts();
      ghost var img0, t0, pl0, u0 := disk.sectors, tree, place, currentDir.table[..];
      var index := currentDir.FindIndex(name);
      if index == -1 {
        RmdirRefused(img0, t0, pl0, u0, name, -2, Valid());
        return Returned(-2);
      }
      KeySlot(img0, t0, pl0, u0, index, Key(name));
      var sector := currentDir.table[index].sector;
      var dirHdr := new FileHeader();
      dirHdr.FetchFrom(disk, sector);
      var empty := CurrentIsEmpty();
      if !empty {
        RmdirRefused(img0, t0, pl0, u0, name, -1, Valid());
        return Returned(-1);
      }
      r := FinishRemoveDirectory(dirHdr, sector, index, name);
    }

    /** The last part of RemoveDirectory, once the current directory has been found empty. */
    method FinishRemoveDirectory(dirHdr: FileHeader, sector: int32, index: nat, ghost name: CString)
      returns (r: Call<int>)
      requires Usable() && index < currentDir.table.Length && sector == currentDir.table[index].sector && OnDisk(sector)
      requires FirstFrom(currentDir.table[..], Key(name), 0) == index && dirHdr.AsWords() == Words(disk.sectors, sector)
      requires Empty(DirTable(disk.sectors, currentDir.table[0].sector))
      modifies this, disk, currentDir.table
      ensures currentDir == old(currentDir) && (r != Returned(0) ==> Usable())
      ensures RmdirResult(old(disk.sectors), old(tree), old(place), old(currentDir.table[..]), name, r,
                          disk.sectors, tree, place, currentDir.table[..], Valid())
    {
      hide *;
      UsableParts();
      ghost var img0, t0, pl0, u0, bits0 := disk.sectors, tree, place, currentDir.table[..], MapBits(disk.sectors);
      ghost var d, key, h := u0[0].sector as int, Key(name), dirHdr.AsWords();
      KeySlot(img0, t0, pl0, u0, index, key);
      ghost var onDisk := key in Names(DirTable(img0, d));
      if onDisk {
        DotNamed(img0, t0, pl0, DirTable(img0, d), index, key);
        DirSectors(img0, t0, pl0, sector, bits0, h);
      }
      var freeMap := FetchMap(disk, freeMapFile);
      var ok := dirHdr.DeallocateDirectory(freeMap);
      if !ok {
        RmdirHalted(img0, t0, pl0, u0, name, h, Valid());
        return Halted;
      }
      freeMap.Clear(sector);
      ghost var e := Entries(h, DirectCount(h[1]));
      ClearedWith(bits0, e, sector);
      FlagBits(currentDir.table[index], false);
      currentDir.table[index] := currentDir.table[index].SetInUse(false);
      ghost var u := currentDir.table[..];
      FlushFreed(freeMap, t0, pl0);
      if onDisk {
        NodesIsolated(img0, disk.sectors, t0, pl0, d);
        DotGone(img0, t0, pl0, disk.sectors, u0, u, index);
        NotValid();
      } else {
        TestedOnDisk(bits0, h);
        FreedNow(img0, t0, pl0, u0, index, key, [sector as int] + e, disk.sectors, u);
        ghost var valid := LeftOverGone(img0, disk.sectors, t0, pl0, u0, index, key, e, u);
        Settle(valid, t0, pl0);
      }
      RmdirDone(img0, t0, pl0, u0, name, h, disk.sectors, tree, place, u, Valid());
      r := Returned(0);
    }

    /** RemoveDirectory's test: the current directory is fetched from disk and asked whether it is empty. */
    method CurrentIsEmpty() returns (r: bool)
      requires Usable()
      ensures r <==> Empty(DirTable(disk.sectors, currentDir.table[0].sector))
    {
      hide Words, Content, WellFormed, DirTable, DiskOk, DecodeTable, Owners, Ahead, Usable;
      UsableParts();
      var directory := new Directory(NUM_DIR_ENTRIES);
      DirOnDisk(disk.sectors, tree, place, currentDir.table[0].sector);
      var currentHdrFile := new OpenFile(disk, currentDir.GetSector());
      directory.FetchFrom(disk, currentHdrFile);
      r := directory.IsEmpty();
    }
  }
}
