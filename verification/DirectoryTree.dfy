/** The tree of directories that a disk's directory tables describe, apart from how the tables are stored. */
module DirectoryTree {
  import opened Bytes
  import opened Directories

  const ROOT_SECTOR := 1

  /** Which sectors head a file or a directory, where each is named, and how deep each directory lies. */
  datatype Tree = Tree(files: set<int>, dirs: set<int>, namedAt: map<int, (int, int)>, depth: map<int, nat>)

  function Parent(t: Tree, d: int): int {
    if d == ROOT_SECTOR || d !in t.namedAt then ROOT_SECTOR else t.namedAt[d].0
  }

  /** One directory's table: "." and ".." in their slots, distinct keys, every other slot in use naming a node
      that no other slot names. */
  ghost predicate DirOk(u: Table, d: int, t: Tree) {
    && |u| == 10 && DistinctKeys(u)
    && Holds(u, 0, Dots(1)) && u[0].IsDir() && u[0].sector == d
    && Holds(u, 1, Dots(2)) && u[1].IsDir() && u[1].sector == Parent(t, d)
    && forall i :: 2 <= i < 10 && u[i].InUse() ==> SlotOk(u, d, t, i)
  }

  ghost predicate SlotOk(u: Table, d: int, t: Tree, i: int)
    requires 0 <= i < |u|
  {
    var e := u[i].sector as int;
    && e in t.namedAt && t.namedAt[e] == (d, i)
    && (if u[i].IsDir() then e in t.dirs && e != ROOT_SECTOR else e in t.files)
  }

  /** Node e is named where the tree says. */
  ghost predicate NamedOk(tables: map<int, Table>, t: Tree, e: int) {
    && e in t.namedAt
    && var (d, i) := t.namedAt[e];
    && d in t.dirs && d in tables && 2 <= i < 10 && |tables[d]| == 10
    && tables[d][i].InUse() && tables[d][i].sector == e
    && (tables[d][i].IsDir() <==> e in t.dirs)
    && (e in t.dirs ==> e in t.depth && d in t.depth && t.depth[e] == t.depth[d] + 1)
  }

  ghost predicate TreeOk(tables: map<int, Table>, t: Tree) {
    && tables.Keys == t.dirs && t.files !! t.dirs
    && t.depth.Keys == t.dirs && ROOT_SECTOR in t.dirs && t.depth[ROOT_SECTOR] == 0
    && (forall d :: d in t.dirs ==> DirOk(tables[d], d, t))
    && t.namedAt.Keys == t.files + (t.dirs - {ROOT_SECTOR})
    && (forall e :: e in t.namedAt ==> NamedOk(tables, t, e))
  }

  lemma DirFacts(tables: map<int, Table>, t: Tree, d: int)
    requires TreeOk(tables, t) && d in t.dirs
    ensures d in tables && DirOk(tables[d], d, t) && Parent(t, d) in t.dirs && d in t.depth
    ensures |tables[d]| == 10 && tables[d][PARENT_DIRECTORY_INDEX].sector == Parent(t, d)
    ensures d != ROOT_SECTOR ==> t.depth[d] == t.depth[Parent(t, d)] + 1
    ensures d == ROOT_SECTOR ==> t.depth[d] == 0
  {
    assert d != ROOT_SECTOR ==> NamedOk(tables, t, d);
  }

  /** Where ".." leads from d, k times over. */
  function Up(tables: map<int, Table>, d: int, k: nat): int
    decreases k
  {
    if k == 0 then d
    else if d in tables && |tables[d]| == 10 then Up(tables, tables[d][PARENT_DIRECTORY_INDEX].sector, k - 1)
    else -1
  }

  /** Following ".." from any directory leads to the root in as many steps as the directory is deep. */
  lemma {:induction false} UpReachesRoot(tables: map<int, Table>, t: Tree, d: int)
    requires TreeOk(tables, t) && d in t.dirs
    ensures d in t.depth && Up(tables, d, t.depth[d]) == ROOT_SECTOR
    decreases if d in t.depth then t.depth[d] else 0
  {
    hide TreeOk, DirOk, Parent;
    DirFacts(tables, t, d);
    if d != ROOT_SECTOR {
      DirFacts(tables, t, Parent(t, d));
      UpReachesRoot(tables, t, Parent(t, d));
    }
  }

  /** How deep a node lies; a file one deeper than the directory that names it. */
  function DepthOf(t: Tree, x: int): nat {
    if x in t.depth then t.depth[x]
    else if x in t.namedAt && t.namedAt[x].0 in t.depth then t.depth[t.namedAt[x].0] + 1
    else 0
  }

  /** Node x is one of tops, or named in a directory that lies under one of them. */
  predicate Under(t: Tree, x: int, tops: set<int>)
    decreases DepthOf(t, x)
  {
    || x in tops
    || (x in t.namedAt && DepthOf(t, t.namedAt[x].0) < DepthOf(t, x) && Under(t, t.namedAt[x].0, tops))
  }

  lemma UnderParent(tables: map<int, Table>, t: Tree, x: int, tops: set<int>)
    requires TreeOk(tables, t) && x in t.namedAt
    ensures DepthOf(t, t.namedAt[x].0) < DepthOf(t, x) && t.namedAt[x].0 in t.dirs
    ensures Under(t, x, tops) <==> x in tops || Under(t, t.namedAt[x].0, tops)
  {
    assert NamedOk(tables, t, x);
  }

  lemma {:induction false} UnderIsDeeper(t: Tree, x: int, s: int)
    requires Under(t, x, {s})
    ensures DepthOf(t, x) >= DepthOf(t, s)
    decreases DepthOf(t, x)
  {
    if x != s {
      UnderIsDeeper(t, t.namedAt[x].0, s);
    }
  }

  lemma {:induction false} UnderNothing(t: Tree, x: int)
    ensures !Under(t, x, {})
    decreases DepthOf(t, x)
  {
    if x in t.namedAt && DepthOf(t, t.namedAt[x].0) < DepthOf(t, x) {
      UnderNothing(t, t.namedAt[x].0);
    }
  }

  /** Every directory that one table names from slot 2 on, but for those in gone, is named so in the other. */
  ghost predicate Keeps(v: Table, u: Table, gone: set<int>) {
    && |v| == |u| == 10
    && forall j :: 2 <= j < 10 && v[j].InUse() && v[j].IsDir() && v[j].sector as int !in gone ==> u[j] == v[j]
  }

  ghost predicate Grown(tables: map<int, Table>, tables2: map<int, Table>, gone: set<int>) {
    forall d :: d in tables && d in tables2 ==> Keeps(tables[d], tables2[d], gone)
  }

  /** As long as no table loses the name of a directory that is not in gone, whatever tree the tables make has all
      the directories there were, but for those and what lies under them. */
  lemma {:induction false} DirectoriesRemain(tables: map<int, Table>, t: Tree, tables2: map<int, Table>, t2: Tree,
                                             gone: set<int>, x: int)
    requires TreeOk(tables, t) && TreeOk(tables2, t2) && Grown(tables, tables2, gone)
    requires x in t.dirs && !Under(t, x, gone)
    ensures x in t2.dirs
    decreases if x in t.depth then t.depth[x] else 0
  {
    hide TreeOk, DirOk, SlotOk, NamedOk, Grown, Under, DepthOf;
    RootThere(tables2, t2);
    if x != ROOT_SECTOR {
      var p, j := NamedIn(tables, t, x);
      UnderParent(tables, t, x, gone);
      DirectoriesRemain(tables, t, tables2, t2, gone, p);
      UnderItself(t, x, gone);
      NamedThere(tables, tables2, t2, gone, p, j, x);
    }
  }

  lemma UnderItself(t: Tree, x: int, tops: set<int>)
    ensures x in tops ==> Under(t, x, tops)
  {
  }

  lemma RootThere(tables: map<int, Table>, t: Tree)
    requires TreeOk(tables, t)
    ensures ROOT_SECTOR in t.dirs
  {
  }

  lemma NamedIn(tables: map<int, Table>, t: Tree, x: int) returns (p: int, j: int)
    requires TreeOk(tables, t) && x in t.dirs && x != ROOT_SECTOR
    ensures p in t.dirs && p in t.depth && x in t.depth && t.depth[p] < t.depth[x]
    ensures p in tables && |tables[p]| == 10 && 2 <= j < 10
    ensures tables[p][j].InUse() && tables[p][j].IsDir() && tables[p][j].sector == x
    ensures x in t.namedAt && t.namedAt[x].0 == p
  {
    assert NamedOk(tables, t, x);
    p, j := t.namedAt[x].0, t.namedAt[x].1;
  }

  lemma NamedThere(tables: map<int, Table>, tables2: map<int, Table>, t2: Tree, gone: set<int>, p: int, j: int, x: int)
    requires TreeOk(tables2, t2) && Grown(tables, tables2, gone) && p in t2.dirs && p in tables && |tables[p]| == 10
    requires 2 <= j < 10 && x !in gone
    requires tables[p][j].InUse() && tables[p][j].IsDir() && tables[p][j].sector == x
    ensures x in t2.dirs
  {
    assert Keeps(tables[p], tables2[p], gone);
    assert DirOk(tables2[p], p, t2);
    assert SlotOk(tables2[p], p, t2, j);
  }

  /** A slot in use names the same node in every tree that the tables make. */
  lemma SameSlot(tables: map<int, Table>, t: Tree, t2: Tree, e: int)
    requires TreeOk(tables, t) && TreeOk(tables, t2) && e in t.namedAt
    ensures e in t2.namedAt && t2.namedAt[e] == t.namedAt[e]
    ensures e in t.files ==> e in t2.files
  {
    hide Key, Dots, DistinctKeys;
    var (d, i) := t.namedAt[e];
    assert NamedOk(tables, t, e);
    assert DirOk(tables[d], d, t2) && SlotOk(tables[d], d, t2, i);
  }

  lemma {:induction false} SameDepth(tables: map<int, Table>, t: Tree, t2: Tree, x: int)
    requires TreeOk(tables, t) && TreeOk(tables, t2) && x in t.dirs
    ensures x in t.depth && x in t2.depth && t.depth[x] == t2.depth[x]
    decreases if x in t.depth then t.depth[x] else 0
  {
    hide TreeOk, DirOk;
    DirFacts(tables, t, x);
    SameDirs(tables, t, t2);
    DirFacts(tables, t2, x);
    if x != ROOT_SECTOR {
      DirFacts(tables, t, Parent(t, x));
      SameDepth(tables, t, t2, Parent(t, x));
    }
  }

  lemma SameDirs(tables: map<int, Table>, t: Tree, t2: Tree)
    requires TreeOk(tables, t) && TreeOk(tables, t2)
    ensures t.dirs == t2.dirs
  {
  }

  /** The tables determine the tree. */
  lemma TreeIsDetermined(tables: map<int, Table>, t: Tree, t2: Tree)
    requires TreeOk(tables, t) && TreeOk(tables, t2)
    ensures t == t2
  {
    hide DirOk, NamedOk;
    forall e | e in t.namedAt
      ensures e in t2.namedAt && t2.namedAt[e] == t.namedAt[e] && (e in t.files ==> e in t2.files)
    {
      SameSlot(tables, t, t2, e);
    }
    forall e | e in t2.namedAt
      ensures e in t.namedAt && (e in t2.files ==> e in t.files)
    {
      SameSlot(tables, t2, t, e);
    }
    forall x | x in t.dirs
      ensures t.depth[x] == t2.depth[x]
    {
      SameDepth(tables, t, t2, x);
    }
    assert forall e :: e in t.files <==> e in t2.files;
    assert t.files == t2.files && t.namedAt == t2.namedAt && t.depth == t2.depth;
  }

  /** What a slot that is not in use holds does not matter. */
  lemma FreeSlotFree(tables: map<int, Table>, t: Tree, d: int, i: int, u: Table)
    requires TreeOk(tables, t) && d in t.dirs && |u| == |tables[d]| == 10 && 2 <= i < 10
    requires !tables[d][i].InUse() && !u[i].InUse() && forall j :: 0 <= j < 10 && j != i ==> u[j] == tables[d][j]
    ensures TreeOk(tables[d := u], t)
  {
    hide Key, Dots, NamedOk;
    var v, tables2 := tables[d], tables[d := u];
    assert DirOk(v, d, t) && Holds(v, 0, Dots(1)) && Holds(v, 1, Dots(2));
    forall j | 2 <= j < 10 && u[j].InUse()
      ensures SlotOk(u, d, t, j)
    {
      assert SlotOk(v, d, t, j);
    }
    forall e | e in t.namedAt
      ensures NamedOk(tables2, t, e)
    {
      StillNamedThere(tables, t, d, i, u, e);
    }
  }

  lemma StillNamedThere(tables: map<int, Table>, t: Tree, d: int, i: int, u: Table, e: int)
    requires NamedOk(tables, t, e) && d in tables && |u| == |tables[d]| == 10 && 2 <= i < 10
    requires !tables[d][i].InUse() && forall j :: 0 <= j < 10 && j != i ==> u[j] == tables[d][j]
    ensures NamedOk(tables[d := u], t, e)
  {
  }

  function WithFile(t: Tree, d: int, i: int, s: int): Tree {
    t.(files := t.files + {s}, namedAt := t.namedAt[s := (d, i)])
  }

  function WithDir(t: Tree, d: int, i: int, s: int): Tree {
    t.(dirs := t.dirs + {s}, namedAt := t.namedAt[s := (d, i)],
        depth := t.depth[s := if d in t.depth then t.depth[d] + 1 else 0])
  }

  /** A node and everything under it. */
  function Subtree(t: Tree, s: int): (g: set<int>)
    ensures forall x :: x in g <==> x in t.files + t.dirs && Under(t, x, {s})
  {
    set x | x in t.files + t.dirs && Under(t, x, {s})
  }

  function WithoutSubtree(t: Tree, s: int): Tree {
    var g := Subtree(t, s);
    Tree(t.files - g, t.dirs - g, t.namedAt - g, t.depth - g)
  }

  /** u is the table v with slot i newly naming node s. */
  ghost predicate NamesNew(v: Table, u: Table, i: int, s: int, isDir: bool) {
    && |u| == |v| == 10 && 2 <= i < 10 && !v[i].InUse()
    && u[i].InUse() && u[i].IsDir() == isDir && u[i].sector == s
    && DistinctKeys(u) && forall j :: 0 <= j < 10 && j != i ==> u[j] == v[j]
  }

  lemma FilledNamesNew(v: Table, i: int, name: CString, s: int32, isDir: bool)
    requires |v| == 10 && 2 <= i < 10 && !v[i].InUse() && DistinctKeys(v) && Key(name) !in Names(v)
    ensures NamesNew(v, Filled(v, i, name, s, isDir), i, s, isDir)
  {
    FilledNames(v, i, name, s, isDir);
  }

  /** A tree that agrees with t on the nodes of t keeps t's tables in order. */
  ghost predicate Extends(t: Tree, t2: Tree, s: int) {
    && s !in t.files + t.dirs && s != ROOT_SECTOR
    && t.files <= t2.files <= t.files + {s} && t.dirs <= t2.dirs <= t.dirs + {s}
    && t.namedAt.Keys == t.files + (t.dirs - {ROOT_SECTOR})
    && (forall e :: e in t.namedAt ==> e in t2.namedAt && t2.namedAt[e] == t.namedAt[e])
    && (forall d :: d in t.depth && d != s ==> d in t2.depth && t2.depth[d] == t.depth[d])
  }

  lemma SlotKept(u: Table, d: int, t: Tree, t2: Tree, s: int, i: int)
    requires 0 <= i < |u| && SlotOk(u, d, t, i) && Extends(t, t2, s)
    ensures SlotOk(u, d, t2, i)
  {
  }

  lemma OtherDirKept(u: Table, d: int, t: Tree, t2: Tree, s: int)
    requires DirOk(u, d, t) && Extends(t, t2, s) && d in t.dirs
    ensures DirOk(u, d, t2)
  {
    hide Key, Dots, SlotOk, Extends;
    assert Parent(t2, d) == Parent(t, d) by { ParentKept(t, t2, s, d); }
    forall i | 2 <= i < 10 && u[i].InUse()
      ensures SlotOk(u, d, t2, i)
    {
      SlotKept(u, d, t, t2, s, i);
    }
  }

  lemma ParentKept(t: Tree, t2: Tree, s: int, d: int)
    requires Extends(t, t2, s) && d in t.dirs
    ensures Parent(t2, d) == Parent(t, d)
  {
  }

  lemma NewSlotDir(v: Table, u: Table, d: int, t: Tree, t2: Tree, i: int, s: int, isDir: bool)
    requires DirOk(v, d, t) && d in t.dirs && NamesNew(v, u, i, s, isDir) && Extends(t, t2, s)
    requires s in t2.namedAt && t2.namedAt[s] == (d, i)
    requires if isDir then s in t2.dirs else s in t2.files
    ensures DirOk(u, d, t2)
  {
    hide Key, Dots, Parent;
    ParentKept(t, t2, s, d);
    forall j | 2 <= j < 10 && u[j].InUse()
      ensures SlotOk(u, d, t2, j)
    {
      if j != i {
        assert SlotOk(v, d, t, j);
        SlotKept(v, d, t, t2, s, j);
      }
    }
    assert Holds(v, 0, Dots(1)) && Holds(v, 1, Dots(2));
  }

  /** A node named in t is still named there after slot i of d names s. */
  lemma NamedKept(tables: map<int, Table>, t: Tree, tables2: map<int, Table>, t2: Tree, d: int, i: int, s: int,
                  isDir: bool, e: int)
    requires NamedOk(tables, t, e) && e != s && d in tables && d in tables2
    requires NamesNew(tables[d], tables2[d], i, s, isDir)
    requires Extends(t, t2, s) && (e in t.dirs <==> e in t2.dirs)
    requires forall x :: x in tables && x != d ==> x in tables2 && tables2[x] == tables[x]
    requires t.dirs == t.depth.Keys == tables.Keys
    ensures NamedOk(tables2, t2, e)
  {
  }

  lemma NewlyNamed(tables2: map<int, Table>, t2: Tree, v: Table, d: int, i: int, s: int, isDir: bool)
    requires d in tables2 && NamesNew(v, tables2[d], i, s, isDir) && d in t2.dirs
    requires s in t2.namedAt && t2.namedAt[s] == (d, i) && (isDir <==> s in t2.dirs)
    requires isDir ==> s in t2.depth && d in t2.depth && t2.depth[s] == t2.depth[d] + 1
    ensures NamedOk(tables2, t2, s)
  {
  }

  /** Create: naming a new file in directory d keeps the tree in order. */
  lemma AddFile(tables: map<int, Table>, t: Tree, d: int, i: int, s: int, u: Table)
    requires TreeOk(tables, t) && d in t.dirs && NamesNew(tables[d], u, i, s, false)
    requires s !in t.files + t.dirs
    ensures TreeOk(tables[d := u], WithFile(t, d, i, s))
  {
    hide DirOk, NamedOk, NamesNew;
    var tables2, t2 := tables[d := u], WithFile(t, d, i, s);
    NewSlotDir(tables[d], u, d, t, t2, i, s, false);
    forall x | x in t2.dirs
      ensures DirOk(tables2[x], x, t2)
    {
      if x != d {
        OtherDirKept(tables[x], x, t, t2, s);
      }
    }
    forall e | e in t2.namedAt
      ensures NamedOk(tables2, t2, e)
    {
      if e != s {
        NamedKept(tables, t, tables2, t2, d, i, s, false, e);
      } else {
        NewlyNamed(tables2, t2, tables[d], d, i, s, false);
      }
    }
  }

  /** A new directory's own table: nothing but "." and "..". */
  ghost predicate FreshDir(w: Table, s: int, d: int) {
    && |w| == 10 && (forall i :: 0 <= i < 10 ==> w[i].InUse() == (i < 2))
    && (forall i :: 0 <= i < 2 ==> w[i].IsDir() && Key(w[i].name) == Dots(i + 1))
    && w[0].sector == s && w[1].sector == d
  }

  lemma FreshDirOk(w: Table, s: int, d: int, t: Tree)
    requires FreshDir(w, s, d) && Parent(t, s) == d
    ensures DirOk(w, s, t)
  {
    assert Dots(1)[..] != Dots(2)[..];
  }

  /** CreateDirectory: naming a new, empty directory in directory d keeps the tree in order. */
  lemma AddDir(tables: map<int, Table>, t: Tree, d: int, i: int, s: int, u: Table, w: Table)
    requires TreeOk(tables, t) && d in t.dirs && NamesNew(tables[d], u, i, s, true)
    requires s !in t.files + t.dirs && FreshDir(w, s, d)
    ensures TreeOk(tables[d := u][s := w], WithDir(t, d, i, s))
  {
    hide DirOk, NamedOk, NamesNew, FreshDir;
    var tables2, t2 := tables[d := u][s := w], WithDir(t, d, i, s);
    NewSlotDir(tables[d], u, d, t, t2, i, s, true);
    FreshDirOk(w, s, d, t2);
    forall x | x in t2.dirs
      ensures DirOk(tables2[x], x, t2)
    {
      if x != d && x != s {
        OtherDirKept(tables[x], x, t, t2, s);
      }
    }
    forall e | e in t2.namedAt
      ensures NamedOk(tables2, t2, e)
    {
      if e != s {
        NamedKept(tables, t, tables2, t2, d, i, s, true, e);
      } else {
        NewlyNamed(tables2, t2, tables[d], d, i, s, true);
      }
    }
  }

  /** Remove: freeing the slot of a node keeps in order the tree without that node and everything under it. */
  lemma RemoveNode(tables: map<int, Table>, t: Tree, d: int, i: int, key: seq<byte>, s: int, u: Table)
    requires TreeOk(tables, t) && d in t.dirs && 2 <= i < 10 && Holds(tables[d], i, key)
    requires s == tables[d][i].sector && u == tables[d][i := tables[d][i].SetInUse(false)]
    ensures d !in Subtree(t, s) && s in Subtree(t, s) && d in WithoutSubtree(t, s).dirs
    ensures var g := Subtree(t, s);
            TreeOk((tables - g)[d := u], WithoutSubtree(t, s))
  {
    hide Key, Dots, NamedOk, DirOk, Holds, Subtree, Under, DepthOf, Parent;
    var g, t2 := Subtree(t, s), WithoutSubtree(t, s);
    SlotFacts(tables[d], d, t, i, key);
    SubtreeApart(tables, t, d, i, s);
    FreedNames(tables[d], i, key);
    forall x | x in t2.dirs
      ensures DirOk(if x == d then u else tables[x], x, t2)
    {
      DirWithout(tables, t, d, i, s, u, x);
    }
    forall e | e in t2.namedAt
      ensures NamedOk((tables - g)[d := u], t2, e)
    {
      NamedWithout(tables, t, d, i, s, u, e);
    }
  }

  lemma {:induction false} NoDirUnderFile(tables: map<int, Table>, t: Tree, x: int, s: int)
    requires TreeOk(tables, t) && s in t.files && x in t.dirs
    ensures !Under(t, x, {s})
    decreases DepthOf(t, x)
  {
    hide Key, Dots, DirOk, NamedOk, DepthOf;
    if x in t.namedAt {
      UnderParent(tables, t, x, {s});
      NoDirUnderFile(tables, t, t.namedAt[x].0, s);
    }
  }

  /** Nothing lies under an ordinary file. */
  lemma FileAlone(tables: map<int, Table>, t: Tree, s: int)
    requires TreeOk(tables, t) && s in t.files
    ensures Subtree(t, s) == {s}
  {
    hide Key, Dots, DirOk, NamedOk, DepthOf, Under;
    UnderItself(t, s, {s});
    forall x | x in t.files + t.dirs
      ensures Under(t, x, {s}) <==> x == s
    {
      if x in t.namedAt {
        UnderParent(tables, t, x, {s});
        NoDirUnderFile(tables, t, t.namedAt[x].0, s);
      } else {
        NoDirUnderFile(tables, t, x, s);
      }
    }
    assert forall x :: x in Subtree(t, s) <==> x in {s};
  }

  lemma SlotFacts(v: Table, d: int, t: Tree, i: int, key: seq<byte>)
    requires DirOk(v, d, t) && 2 <= i < 10 && Holds(v, i, key)
    ensures |v| == 10 && DistinctKeys(v) && v[i].InUse() && SlotOk(v, d, t, i)
  {
  }

  /** Neither the root nor the directory that names the node lies under it. */
  lemma SubtreeApart(tables: map<int, Table>, t: Tree, d: int, i: int, s: int)
    requires TreeOk(tables, t) && d in t.dirs && |tables[d]| == 10 && 0 <= i < 10 && SlotOk(tables[d], d, t, i)
    requires s == tables[d][i].sector
    ensures s in Subtree(t, s) && d !in Subtree(t, s) && ROOT_SECTOR !in Subtree(t, s)
    ensures s in t.namedAt && t.namedAt[s] == (d, i)
  {
    hide Key, Dots, DirOk, NamedOk, SlotOk, DepthOf;
    SlotNames(tables[d], d, t, i, s);
    UnderParent(tables, t, s, {s});
    if Under(t, d, {s}) {
      UnderIsDeeper(t, d, s);
      assert false;
    }
  }

  lemma SlotNames(v: Table, d: int, t: Tree, i: int, s: int)
    requires 0 <= i < |v| && SlotOk(v, d, t, i) && s == v[i].sector
    ensures s in t.namedAt && t.namedAt[s] == (d, i) && s in t.files + t.dirs
    ensures if v[i].IsDir() then s in t.dirs && s != ROOT_SECTOR else s in t.files
  {
  }

  lemma ParentWithout(t: Tree, s: int, x: int)
    requires x !in Subtree(t, s)
    ensures Parent(WithoutSubtree(t, s), x) == Parent(t, x)
  {
  }

  lemma DirWithout(tables: map<int, Table>, t: Tree, d: int, i: int, s: int, u: Table, x: int)
    requires TreeOk(tables, t) && d in t.dirs && 2 <= i < 10 && |tables[d]| == 10 && tables[d][i].InUse()
    requires SlotOk(tables[d], d, t, i) && s == tables[d][i].sector
    requires u == tables[d][i := tables[d][i].SetInUse(false)] && DistinctKeys(u) && x in WithoutSubtree(t, s).dirs
    ensures DirOk(if x == d then u else tables[x], x, WithoutSubtree(t, s))
  {
    hide Key, Dots, Under, DepthOf, Parent, Subtree;
    SubtreeApart(tables, t, d, i, s);
    ParentWithout(t, s, x);
    FlagBits(tables[d][i], false);
    assert DirOk(tables[x], x, t);
    var y := if x == d then u else tables[x];
    assert Holds(tables[x], 0, Dots(1)) && Holds(tables[x], 1, Dots(2));
    forall j | 2 <= j < 10 && y[j].InUse()
      ensures SlotOk(y, x, WithoutSubtree(t, s), j)
    {
      assert SlotOk(tables[x], x, t, j);
      UnderParent(tables, t, y[j].sector, {s});
    }
  }

  lemma NamedWithout(tables: map<int, Table>, t: Tree, d: int, i: int, s: int, u: Table, e: int)
    requires TreeOk(tables, t) && d in t.dirs && 2 <= i < 10 && |tables[d]| == 10 && SlotOk(tables[d], d, t, i)
    requires s == tables[d][i].sector && u == tables[d][i := tables[d][i].SetInUse(false)]
    requires e in WithoutSubtree(t, s).namedAt
    ensures NamedOk((tables - Subtree(t, s))[d := u], WithoutSubtree(t, s), e)
  {
    hide Key, Dots, DirOk, Under, DepthOf, Subtree;
    SubtreeApart(tables, t, d, i, s);
    assert NamedOk(tables, t, e);
    UnderParent(tables, t, e, {s});
  }

  /** The tree a format leaves: an empty root, its own parent. */
  lemma FormattedTree(w: Table)
    requires FreshDir(w, ROOT_SECTOR, ROOT_SECTOR)
    ensures TreeOk(map[ROOT_SECTOR := w], Tree({}, {ROOT_SECTOR}, map[], map[ROOT_SECTOR := 0]))
  {
    FreshDirOk(w, ROOT_SECTOR, ROOT_SECTOR, Tree({}, {ROOT_SECTOR}, map[], map[ROOT_SECTOR := 0]));
  }
}
