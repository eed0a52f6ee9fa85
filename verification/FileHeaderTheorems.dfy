/** What allocation guarantees, and how far deallocation undoes it. */
module FileHeaderTheorems {
  import opened Bytes
  import opened Storage
  import opened BitMaps
  import opened FileHeaders

  /** There is room for n data blocks and the index blocks that list them. */
  predicate Fits(c: nat, n: int32) {
    0 <= n <= 960 && n + IndexCount(n) <= c
  }

  /** The sectors of a file's first n blocks, in order. */
  function Blocks(img: Image, h: Header, mode: int, n: nat): (s: seq<int32>)
    ensures |s| == n
  {
    seq(n, k requires 0 <= k < n => SectorOf(img, h, mode, k))
  }

  ghost predicate Distinct(s: seq<int>) {
    forall i, j :: 0 <= i < j < |s| ==> s[i] != s[j]
  }

  /** The outcome of an Allocate that returned TRUE. */
  ghost predicate Allocated(bits0: Bits, bits1: Bits, img: Image, h: Header, n: int32, found: seq<int32>) {
    && AllocateSucceeds(|ClearSet(bits0)|, n)
    && FindRun(bits0, bits1, found)
    && LaidOut(img, h, n, IndexCount(n), found)
  }

  /** Allocate checks room for the data blocks alone. It returns TRUE on some maps without room for the
      index blocks, and then exactly the blocks whose Find came too late are missing from the file. */
  lemma MissingBlocks(bits0: Bits, bits1: Bits, img: Image, h: Header, n: int32, found: seq<int32>)
    requires Allocated(bits0, bits1, img, h, n, found)
    ensures forall k :: 0 <= k < n ==> (Blocks(img, h, 1, n)[k] == -1 <==> |ClearSet(bits0)| < k + k / 32 + 2)
    ensures AllOnDisk(Blocks(img, h, 1, n)) <==> Fits(|ClearSet(bits0)|, n)
  {
    hide ClearSet;
    forall k | 0 <= k < n
      ensures Blocks(img, h, 1, n)[k] == found[k + k / 32 + 1]
    {
    }
    if !Fits(|ClearSet(bits0)|, n) {
      assert IndexCount(n) == (n - 1) / 32 + 1;
      assert Blocks(img, h, 1, n)[n - 1] == -1 && -1 in Blocks(img, h, 1, n);
    }
  }

  /** Which Find gave entry i of a file's index blocks followed by its data blocks. */
  function Place(i: nat, m: nat): nat {
    if i < m then 33 * i else (i - m) + (i - m) / 32 + 1
  }

  /** The entry of that list which Find number t gave. */
  function EntryAt(t: nat, m: nat): nat {
    if t % 33 == 0 then t / 33 else m + (t - t / 33 - 1)
  }

  lemma PlaceInverse(i: nat, m: nat)
    ensures EntryAt(Place(i, m), m) == i
  {
    if i >= m {
      var q, r := (i - m) / 32, (i - m) % 32;
      assert Place(i, m) == 33 * q + (r + 1);
    }
  }

  lemma EntryInverse(t: nat, m: nat, n: nat)
    requires t < n + m && 32 * (m - 1) < n <= 32 * m
    ensures EntryAt(t, m) < n + m && Place(EntryAt(t, m), m) == t
  {
    var q, r := t / 33, t % 33;
    assert t == 33 * q + r;
    if r != 0 {
      assert EntryAt(t, m) == m + (32 * q + (r - 1));
    }
  }

  lemma EntryFound(img: Image, h: Header, n: int32, found: seq<int32>, i: nat)
    requires 0 <= n <= 960 && LaidOut(img, h, n, IndexCount(n), found) && i < n + IndexCount(n)
    ensures Place(i, IndexCount(n)) < |found| == n + IndexCount(n)
    ensures (Entries(h, IndexCount(n)) + Blocks(img, h, 1, n))[i] == found[Place(i, IndexCount(n))]
  {
    var m := IndexCount(n);
    if i >= m {
      assert Blocks(img, h, 1, n)[i - m] == SectorOf(img, h, 1, i - m);
    } else {
      assert Entries(h, m)[i] == found[33 * i];
    }
  }

  lemma EmptyLayout(img: Image, h: Header, found: seq<int32>)
    requires LaidOut(img, h, 0, 0, found)
    ensures found == []
  {
  }

  /** Whatever room there was: the file's index blocks and its data blocks, bar the missing ones, are different
      sectors, all clear before and the only ones marked since. */
  lemma BlocksFound(bits0: Bits, bits1: Bits, img: Image, h: Header, n: int32, found: seq<int32>)
    requires Allocated(bits0, bits1, img, h, n, found)
    ensures var s := Entries(h, IndexCount(n)) + Blocks(img, h, 1, n);
            && |found| == |s| == n + IndexCount(n)
            && (forall i :: 0 <= i < |s| ==> s[i] == -1 || s[i] in ClearSet(bits0))
            && (forall i :: 0 <= i < IndexCount(n) ==> s[i] != -1)
            && (forall i, j :: 0 <= i < j < |s| && s[i] != -1 ==> s[i] != s[j])
            && (forall x :: OnDisk(x) ==> bits1[x] == (bits0[x] || x in s))
    ensures Fits(|ClearSet(bits0)|, n) ==> forall i :: 0 <= i < |found| ==> found[i] != -1
  {
    hide ClearSet, LaidOut, Place, EntryAt;
    var m := IndexCount(n);
    var s := Entries(h, m) + Blocks(img, h, 1, n);
    if n == 0 {
      EmptyLayout(img, h, found);
    } else {
      EntryFound(img, h, n, found, 0);
    }
    forall i | 0 <= i < |s|
      ensures Place(i, m) < |found| && s[i] == found[Place(i, m)] && EntryAt(Place(i, m), m) == i
    {
      EntryFound(img, h, n, found, i);
      PlaceInverse(i, m);
    }
    forall i | 0 <= i < m
      ensures s[i] != -1
    {
      IndexPlace(i, m);
    }
    forall t | 0 <= t < |found|
      ensures found[t] in s
    {
      EntryInverse(t, m, n);
      assert s[EntryAt(t, m)] == found[t];
    }
    assert forall x :: OnDisk(x) ==> (x in found <==> x in s);
    forall i, j | 0 <= i < j < |s| && s[i] != -1
      ensures s[i] != s[j]
    {
      assert Place(i, m) != Place(j, m);
    }
  }

  lemma IndexPlace(i: nat, m: nat)
    requires i < m
    ensures Place(i, m) <= 33 * (m - 1)
  {
  }

  /** With room, the file's index blocks and its n data blocks are n + IndexCount(n) different sectors,
      all clear before and the only ones marked since. */
  lemma BlocksDistinct(bits0: Bits, bits1: Bits, img: Image, h: Header, n: int32, found: seq<int32>)
    requires Allocated(bits0, bits1, img, h, n, found) && Fits(|ClearSet(bits0)|, n)
    ensures Distinct(Entries(h, IndexCount(n)) + Blocks(img, h, 1, n))
    ensures forall x :: x in Entries(h, IndexCount(n)) + Blocks(img, h, 1, n) ==> x in ClearSet(bits0)
    ensures bits1 == Marked(bits0, Entries(h, IndexCount(n)) + Blocks(img, h, 1, n))
  {
    hide ClearSet, LaidOut, FindRun, Place, EntryAt;
    BlocksFound(bits0, bits1, img, h, n, found);
    MissingBlocks(bits0, bits1, img, h, n, found);
    assert forall k :: 0 <= k < n ==> Blocks(img, h, 1, n)[k] in Blocks(img, h, 1, n);
  }

  /** Distinct numbers, counted. */
  lemma {:induction false} DistinctCount(s: seq<int>)
    requires Distinct(s)
    ensures |(set x | x in s)| == |s|
  {
    if s != [] {
      var rest := s[1..];
      DistinctCount(rest);
      assert (set x | x in s) == {s[0]} + (set x | x in rest);
    }
  }

  /** Deallocate is documented to undo Allocate. As written it gives back the index blocks only: exactly the data
      sectors that were found stay marked, owned by nothing, so that the bitmap returns to what it was if and
      only if there are none: the file is empty, or its index block took the only sector that was clear. */
  lemma DeallocateUndoesAllocate(bits0: Bits, bits1: Bits, img: Image, h: Header, n: int32, found: seq<int32>,
                                 bits2: Bits)
    requires Allocated(bits0, bits1, img, h, n, found)
    requires bits2 == Cleared(bits1, Entries(h, IndexCount(n)))
    ensures bits2 == Marked(bits0, Blocks(img, h, 1, n))
    ensures |ClearSet(bits2)| == if Fits(|ClearSet(bits0)|, n) then |ClearSet(bits0)| - n else IndexCount(n)
    ensures bits2 == bits0 <==> n == 0 || |ClearSet(bits0)| == 1
  {
    hide LaidOut, Entries, Blocks, Place, EntryAt;
    var index, data := Entries(h, IndexCount(n)), Blocks(img, h, 1, n);
    BlocksFound(bits0, bits1, img, h, n, found);
    MissingBlocks(bits0, bits1, img, h, n, found);
    OnlyDataStays(bits0, bits1, index, data, bits2);
    forall i | 0 <= i < |index|
      ensures index[i] != -1 && index[i] in ClearSet(bits0) && index[i] == (index + data)[i]
    {
      assert (index + data)[i] == index[i];
    }
    DistinctCount(index);
    ClearedAgain(bits0, bits1, index, bits2);
    if n > 0 {
      assert data[0] == -1 <==> |ClearSet(bits0)| < 2;
      assert data[0] == (index + data)[|index|];
      assert data[0] != -1 ==> data[0] in data && bits2[data[0]] && !bits0[data[0]];
      assert |ClearSet(bits0)| == 1 ==> data == [data[0]];
    }
  }

  lemma OnlyDataStays(bits0: Bits, bits1: Bits, index: seq<int32>, data: seq<int32>, bits2: Bits)
    requires bits2 == Cleared(bits1, index)
    requires forall i :: 0 <= i < |index + data| ==> (index + data)[i] == -1 || (index + data)[i] in ClearSet(bits0)
    requires forall i, j :: 0 <= i < j < |index + data| && (index + data)[i] != -1 ==>
              (index + data)[i] != (index + data)[j]
    requires forall x :: OnDisk(x) ==> bits1[x] == (bits0[x] || x in index + data)
    ensures bits2 == Marked(bits0, data)
  {
    var s := index + data;
    forall x | OnDisk(x)
      ensures bits2[x] == (bits0[x] || x in data)
    {
      if i :| 0 <= i < |index| && index[i] == x {
        assert s[i] == x;
        forall j | 0 <= j < |data|
          ensures data[j] != x
        {
          assert s[|index| + j] == data[j];
        }
      }
    }
  }

  lemma ClearedAgain(bits0: Bits, bits1: Bits, index: seq<int32>, bits2: Bits)
    requires bits2 == Cleared(bits1, index) && Distinct(index) && |set x | x in index| == |index|
    requires forall x :: x in index ==> OnDisk(x) && bits1[x]
    ensures |ClearSet(bits2)| == |ClearSet(bits1)| + |index|
  {
    var back := set x | x in index;
    assert ClearSet(bits2) == ClearSet(bits1) + back;
    assert ClearSet(bits1) !! back;
  }

  lemma DataApart(index: seq<int>, data: seq<int>)
    requires Distinct(index + data)
    ensures Distinct(index) && Distinct(data)
    ensures forall x :: x in data ==> x !in index
  {
    var s := index + data;
    forall i, j | 0 <= i < j < |data|
      ensures data[i] != data[j]
    {
      assert s[|index| + i] == data[i] && s[|index| + j] == data[j];
    }
    forall i, j | 0 <= i < |index| && 0 <= j < |data|
      ensures index[i] != data[j]
    {
      assert s[i] == index[i] && s[|index| + j] == data[j];
    }
    forall i, j | 0 <= i < j < |index|
      ensures index[i] != index[j]
    {
      assert s[i] == index[i] && s[j] == index[j];
    }
  }

  /** DeallocateDirectory undoes AllocateDirectory, whose every sector it clears. */
  lemma DeallocateDirectoryUndoesAllocate(bits0: Bits, bits1: Bits, h: Header, n: nat, bits2: Bits)
    requires n <= 30 && n <= |ClearSet(bits0)|
    requires FindRun(bits0, bits1, Entries(h, n))
    requires bits2 == Cleared(bits1, Entries(h, n))
    ensures Distinct(Entries(h, n)) && bits1 == Marked(bits0, Entries(h, n))
    ensures forall x :: x in Entries(h, n) ==> x in ClearSet(bits0)
    ensures bits2 == bits0
  {
  }
}
