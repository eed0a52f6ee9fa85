/** Directories: a table of named entries, stored as a file. */
module Directories {
  import opened Bytes
  import opened Storage
  import opened OpenFiles

  const FILE_NAME_MAX_LEN := 9
  const CURRENT_DIRECTORY_INDEX := 0
  const PARENT_DIRECTORY_INDEX := 1
  const NUM_DIR_ENTRIES := 10
  const DIRECTORY_FILE_SIZE := 160

  type CString = s: seq<byte> | 0 !in s witness []
  type NameField = s: seq<byte> | |s| == 10 witness seq(10, _ => 0)

  /** One slot. Bit 0 of inUseAndIsDir says whether the slot is in use, bit 1 whether it is a directory. */
  datatype DirectoryEntry = DirectoryEntry(name: NameField, inUseAndIsDir: bv8, sector: int32) {
    predicate InUse() {
      inUseAndIsDir & 1 != 0
    }

    predicate IsDir() {
      (inUseAndIsDir & 2) >> 1 != 0
    }

    function SetInUse(value: bool): DirectoryEntry {
      this.(inUseAndIsDir := if value then inUseAndIsDir | 1 else inUseAndIsDir & 0xfe)
    }

    function SetIsDir(value: bool): DirectoryEntry {
      this.(inUseAndIsDir := if value then inUseAndIsDir | 2 else inUseAndIsDir & 0xfd)
    }
  }

  type Table = seq<DirectoryEntry>

  /** The part of a name that strncmp(_, _, 9) looks at. */
  function Key(s: seq<byte>): (k: seq<byte>) {
    KeyUpTo(s, FILE_NAME_MAX_LEN)
  }

  function KeyUpTo(s: seq<byte>, n: nat): seq<byte> {
    if n == 0 || s == [] || s[0] == 0 then [] else [s[0]] + KeyUpTo(s[1..], n - 1)
  }

  /** strncpy(field, name, 9): at most 9 characters, padded with zeros; the tenth stays. */
  function StrNCpy(field: NameField, name: CString): NameField {
    seq(10, i requires 0 <= i < 10 => if i == 9 then field[9] else if i < |name| then name[i] else 0)
  }

  lemma {:induction false} KeyOfCopy(a: seq<byte>, b: seq<byte>, n: nat)
    requires n <= |a|
    requires forall i :: 0 <= i < n ==> a[i] == if i < |b| then b[i] else 0
    ensures KeyUpTo(a, n) == KeyUpTo(b, n)
  {
    if n > 0 && b != [] {
      KeyOfCopy(a[1..], b[1..], n - 1);
    }
  }

  /** A copied name is found again under the name it was copied from. */
  lemma CopiedKey(field: NameField, name: CString)
    ensures Key(StrNCpy(field, name)) == Key(name) && SameName(StrNCpy(field, name), name)
  {
    KeyOfCopy(StrNCpy(field, name), name, 9);
    KeysAgree(StrNCpy(field, name), name);
  }

  /** Character i of a string that ends at its first zero, or where it stops. */
  function CharAt(s: seq<byte>, i: nat): byte {
    if i < |s| then s[i] else 0
  }

  /** strncmp(a, b, 9) == 0: as far as no zero has come, the characters are the same at each of nine places. */
  ghost predicate SameName(a: seq<byte>, b: seq<byte>) {
    AgreeUpTo(a, b, 9)
  }

  ghost predicate AgreeUpTo(a: seq<byte>, b: seq<byte>, n: nat) {
    forall i: nat :: i < n && NoZeroBefore(a, i) ==> CharAt(a, i) == CharAt(b, i)
  }

  ghost predicate NoZeroBefore(s: seq<byte>, i: nat) {
    forall j: nat :: j < i ==> CharAt(s, j) != 0
  }

  lemma AgreeOnePlaceOn(a: seq<byte>, b: seq<byte>, n: nat)
    requires n > 0 && a != [] && b != [] && a[0] == b[0] != 0
    ensures AgreeUpTo(a, b, n) <==> AgreeUpTo(a[1..], b[1..], n - 1)
  {
    forall i: nat
      ensures CharAt(a[1..], i) == CharAt(a, i + 1) && CharAt(b[1..], i) == CharAt(b, i + 1)
      ensures NoZeroBefore(a[1..], i) <==> NoZeroBefore(a, i + 1)
    {
      NoZeroOnePlaceOn(a, i);
    }
    forall i: nat | AgreeUpTo(a, b, n) && i < n - 1 && NoZeroBefore(a[1..], i)
      ensures CharAt(a[1..], i) == CharAt(b[1..], i)
    {
      assert NoZeroBefore(a, i + 1);
    }
    forall i: nat | AgreeUpTo(a[1..], b[1..], n - 1) && i < n && NoZeroBefore(a, i)
      ensures CharAt(a, i) == CharAt(b, i)
    {
      if i > 0 {
        assert NoZeroBefore(a[1..], i - 1);
      }
    }
  }

  lemma NoZeroOnePlaceOn(s: seq<byte>, i: nat)
    requires s != [] && s[0] != 0
    ensures NoZeroBefore(s[1..], i) <==> NoZeroBefore(s, i + 1)
  {
    forall j: nat | NoZeroBefore(s, i + 1) && j < i
      ensures CharAt(s[1..], j) != 0
    {
      assert CharAt(s, j + 1) != 0;
    }
    forall j: nat | NoZeroBefore(s[1..], i) && j < i + 1
      ensures CharAt(s, j) != 0
    {
      assert j > 0 ==> CharAt(s[1..], j - 1) != 0;
    }
  }

  lemma {:induction false} KeysUpTo(a: seq<byte>, b: seq<byte>, n: nat)
    ensures KeyUpTo(a, n) == KeyUpTo(b, n) <==> AgreeUpTo(a, b, n)
    decreases n
  {
    if n > 0 {
      var x, y := CharAt(a, 0), CharAt(b, 0);
      assert NoZeroBefore(a, 0);
      if x == y != 0 {
        AgreeOnePlaceOn(a, b, n);
        KeysUpTo(a[1..], b[1..], n - 1);
        assert KeyUpTo(a, n)[1..] == KeyUpTo(a[1..], n - 1) && KeyUpTo(b, n)[1..] == KeyUpTo(b[1..], n - 1);
      } else if x != y {
        assert !AgreeUpTo(a, b, n);
      } else {
        assert forall i: nat :: i > 0 ==> !NoZeroBefore(a, i);
      }
    }
  }

  /** Two names have the same key just when strncmp over nine characters finds no difference. */
  lemma KeysAgree(a: seq<byte>, b: seq<byte>)
    ensures Key(a) == Key(b) <==> SameName(a, b)
  {
    KeysUpTo(a, b, 9);
  }

  lemma {:induction false} KeyUpToName(name: CString, n: nat)
    ensures KeyUpTo(name, n) == if |name| <= n then name else name[..n]
    decreases n
  {
    if n > 0 && name != [] {
      KeyUpToName(name[1..], n - 1);
      assert |name| > n ==> name[..n] == [name[0]] + name[1..][..n - 1];
      assert name == [name[0]] + name[1..];
    }
  }

  /** The key of a name is the name itself, or its first nine characters if it has more. */
  lemma KeyOfName(name: CString)
    ensures Key(name) == if |name| <= 9 then name else name[..9]
  {
    KeyUpToName(name, 9);
  }

  datatype Listed = Listed(sector: int32, isDir: bool)

  predicate Holds(t: Table, i: int, key: seq<byte>) {
    0 <= i < |t| && t[i].InUse() && Key(t[i].name) == key
  }

  ghost predicate DistinctKeys(t: Table) {
    forall i, j :: 0 <= i < j < |t| && t[i].InUse() && t[j].InUse() ==> Key(t[i].name) != Key(t[j].name)
  }

  /** The first slot at or after i that holds the key, or -1. */
  function FirstFrom(t: Table, key: seq<byte>, i: nat): (r: int)
    requires i <= |t|
    ensures -1 <= r < |t|
    ensures r == -1 ==> forall j :: i <= j < |t| ==> !Holds(t, j, key)
    ensures r != -1 ==> i <= r && Holds(t, r, key) && forall j :: i <= j < r ==> !Holds(t, j, key)
    decreases |t| - i
  {
    if i == |t| then -1 else if Holds(t, i, key) then i else FirstFrom(t, key, i + 1)
  }

  /** The finite map that a table stands for: each key in use, with what its first slot lists. */
  function Names(t: Table): (m: map<seq<byte>, Listed>)
    ensures forall key :: key in m <==> FirstFrom(t, key, 0) != -1
    ensures forall key :: key in m ==> m[key] == Listed(t[FirstFrom(t, key, 0)].sector, t[FirstFrom(t, key, 0)].IsDir())
  {
    var keys := set i | 0 <= i < |t| && t[i].InUse() :: Key(t[i].name);
    assert forall key :: key in keys <==> FirstFrom(t, key, 0) != -1 by {
      forall key | key in keys
        ensures FirstFrom(t, key, 0) != -1
      {
        var i :| 0 <= i < |t| && t[i].InUse() && Key(t[i].name) == key;
        assert Holds(t, i, key);
      }
    }
    map key | key in keys :: Listed(t[FirstFrom(t, key, 0)].sector, t[FirstFrom(t, key, 0)].IsDir())
  }

  /** A key is listed by whichever slot holds it, when no two slots share a key. */
  lemma ListedAt(t: Table, i: int, key: seq<byte>)
    requires DistinctKeys(t) && Holds(t, i, key)
    ensures FirstFrom(t, key, 0) == i
    ensures key in Names(t) && Names(t)[key] == Listed(t[i].sector, t[i].IsDir())
  {
    var f := FirstFrom(t, key, 0);
    assert Holds(t, f, key);
  }

  /** The table after a free slot i is given a name. */
  function Filled(t: Table, i: nat, name: CString, sector: int32, isDir: bool): Table
    requires i < |t|
  {
    t[i := t[i].SetInUse(true).SetIsDir(isDir).(name := StrNCpy(t[i].name, name), sector := sector)]
  }

  /** Each flag is what was last set, in its own bit, and setting one leaves the other and the rest of the slot. */
  lemma FlagBits(e: DirectoryEntry, v: bool)
    ensures e.InUse() <==> e.inUseAndIsDir | 1 == e.inUseAndIsDir
    ensures e.IsDir() <==> e.inUseAndIsDir | 2 == e.inUseAndIsDir
    ensures e.SetInUse(v).InUse() == v && e.SetInUse(v).IsDir() == e.IsDir()
    ensures e.SetIsDir(v).IsDir() == v && e.SetIsDir(v).InUse() == e.InUse()
    ensures e.SetInUse(v).sector == e.sector && e.SetInUse(v).name == e.name
    ensures e.SetIsDir(v).sector == e.sector && e.SetIsDir(v).name == e.name
  {
  }

  lemma FilledIs(t: Table, i: nat, name: CString, sector: int32, isDir: bool, u: Table)
    requires i < |t|
    requires u == t[i := t[i].SetInUse(true).SetIsDir(isDir).(name := StrNCpy(t[i].name, name), sector := sector)]
    ensures u == Filled(t, i, name, sector, isDir)
  {
  }

  lemma FilledSlot(t: Table, i: nat, name: CString, sector: int32, isDir: bool, u: Table)
    requires i < |t| && !t[i].InUse() && Key(name) !in Names(t) && u == Filled(t, i, name, sector, isDir)
    ensures |u| == |t| && u[i].IsDir() == isDir && u[i].sector == sector
    ensures forall j, key :: Holds(u, j, key) <==> if j == i then key == Key(name) else Holds(t, j, key)
    ensures (forall k :: !Holds(t, i, k)) && forall j :: !Holds(t, j, Key(name))
    ensures forall j :: 0 <= j < |t| && j != i ==> u[j] == t[j]
  {
    hide Key, StrNCpy;
    FlagBits(t[i], true);
    FlagBits(t[i].SetInUse(true), isDir);
    CopiedKey(t[i].name, name);
  }

  /** Where a key is first found depends only on which slots hold it. */
  lemma FirstMoves(t: Table, u: Table, k: seq<byte>, i: int)
    requires |t| == |u|
    ensures (forall j :: Holds(u, j, k) <==> Holds(t, j, k)) ==> FirstFrom(u, k, 0) == FirstFrom(t, k, 0)
    ensures (forall j :: Holds(u, j, k) <==> j == i) ==> FirstFrom(u, k, 0) == i
    ensures (forall j :: !Holds(u, j, k)) ==> FirstFrom(u, k, 0) == -1
  {
    hide Key;
    var f, g := FirstFrom(u, k, 0), FirstFrom(t, k, 0);
    assert f != -1 ==> Holds(u, f, k);
    assert g != -1 ==> Holds(t, g, k);
    assert (forall j :: Holds(u, j, k) <==> j == i) ==> Holds(u, i, k);
  }

  /** A table that holds one key more, in slot i. */
  lemma OneMoreName(t: Table, u: Table, i: nat, key: seq<byte>)
    requires i < |t| == |u| && forall j, k :: Holds(u, j, k) <==> if j == i then k == key else Holds(t, j, k)
    requires forall k :: !Holds(t, i, k)
    requires forall j :: !Holds(t, j, key)
    requires forall j :: 0 <= j < |t| && j != i ==> u[j] == t[j]
    ensures Names(u) == Names(t)[key := Listed(u[i].sector, u[i].IsDir())]
  {
    hide Key, Holds, FirstFrom, Names;
    forall k
      ensures FirstFrom(u, k, 0) == if k == key then i else FirstFrom(t, k, 0)
    {
      FirstMoves(t, u, k, i);
    }
    var m := Names(t)[key := Listed(u[i].sector, u[i].IsDir())];
    assert forall k :: k in Names(u) <==> k in m;
    assert forall k :: k in m ==> Names(u)[k] == m[k];
  }

  lemma StillDistinct(t: Table, u: Table, i: nat, key: seq<byte>)
    requires i < |t| == |u| && forall j, k :: Holds(u, j, k) <==> if j == i then k == key else Holds(t, j, k)
    requires DistinctKeys(t) && forall j :: !Holds(t, j, key)
    ensures DistinctKeys(u)
  {
    hide Key;
    forall j, k | 0 <= j < k < |u| && u[j].InUse() && u[k].InUse()
      ensures Key(u[j].name) != Key(u[k].name)
    {
      assert Holds(u, j, Key(u[j].name)) && Holds(u, k, Key(u[k].name));
    }
  }

  /** Filling a free slot with a new key adds exactly that key, with the right flag even on a reused slot. */
  lemma FilledNames(t: Table, i: nat, name: CString, sector: int32, isDir: bool)
    requires i < |t| && !t[i].InUse() && Key(name) !in Names(t)
    ensures var u := Filled(t, i, name, sector, isDir);
            && Holds(u, i, Key(name)) && u[i].IsDir() == isDir
            && Names(u) == Names(t)[Key(name) := Listed(sector, isDir)]
            && (DistinctKeys(t) ==> DistinctKeys(u))
  {
    hide Filled, Key, Holds, DistinctKeys;
    var u := Filled(t, i, name, sector, isDir);
    FilledSlot(t, i, name, sector, isDir, u);
    OneMoreName(t, u, i, Key(name));
    if DistinctKeys(t) {
      StillDistinct(t, u, i, Key(name));
    }
  }

  /** Freeing the slot of a key removes exactly that key. */
  lemma FreedNames(t: Table, i: nat, key: seq<byte>)
    requires DistinctKeys(t) && Holds(t, i, key)
    ensures var u := t[i := t[i].SetInUse(false)];
            Names(u) == Names(t) - {key} && DistinctKeys(u) && !u[i].InUse()
  {
    hide Key;
    var u := t[i := t[i].SetInUse(false)];
    FlagBits(t[i], false);
    assert forall j, k :: Holds(u, j, k) <==> Holds(t, j, k) && j != i;
    OneNameFewer(t, u, i, key);
  }

  lemma OneNameFewer(t: Table, u: Table, i: nat, key: seq<byte>)
    requires |u| == |t| && forall j, k :: Holds(u, j, k) <==> Holds(t, j, k) && j != i
    requires forall j, k :: Holds(t, j, k) ==> (k == key <==> j == i)
    requires forall j :: 0 <= j < |t| && j != i ==> u[j] == t[j]
    ensures Names(u) == Names(t) - {key}
  {
    hide Key, Holds, FirstFrom, Names;
    forall k
      ensures FirstFrom(u, k, 0) == if k == key then -1 else FirstFrom(t, k, 0)
    {
      FirstMoves(t, u, k, i);
    }
    var m := Names(t) - {key};
    assert forall k :: k in Names(u) <==> k in m;
    assert forall k :: k in m ==> Names(u)[k] == m[k];
  }

  /** A slot's 16 bytes: the name, the flags, a byte of padding, the sector. */
  function EncodeEntry(e: DirectoryEntry): (b: seq<byte>)
    ensures |b| == 16
  {
    var flags: seq<byte> := [e.inUseAndIsDir as int, 0];
    e.name + flags + EncodeWord(e.sector)
  }

  function DecodeEntry(b: seq<byte>): DirectoryEntry
    requires |b| == 16
  {
    DirectoryEntry(b[..10], b[10] as bv8, DecodeWord(b[12..16]))
  }

  lemma FlagsRoundTrip(x: bv8)
    ensures (x as int) as bv8 == x
  {
  }

  lemma EntryRoundTrip(e: DirectoryEntry)
    ensures DecodeEntry(EncodeEntry(e)) == e
  {
    hide EncodeWord, DecodeWord;
    WordRoundTrip(e.sector);
    FlagsRoundTrip(e.inUseAndIsDir);
    assert EncodeEntry(e)[..10] == e.name;
    assert EncodeEntry(e)[12..16] == EncodeWord(e.sector);
  }

  function EncodeTable(t: Table): (b: seq<byte>)
    ensures |b| == 16 * |t|
  {
    seq(16 * |t|, p requires 0 <= p < 16 * |t| => EncodeEntry(t[p / 16])[p % 16])
  }

  function DecodeTable(b: seq<byte>): (t: Table)
    requires |b| % 16 == 0
    ensures |t| == |b| / 16
  {
    seq(|b| / 16, i requires 0 <= i < |b| / 16 => DecodeEntry(b[16 * i..16 * i + 16]))
  }

  /** The table after a file was fetched into it. */
  function Fetched(t: Table, content: seq<byte>): (r: Table)
    ensures |r| == |t|
    ensures |content| == 16 * |t| ==> r == DecodeTable(content)
  {
    DecodeTable(Overlaid(EncodeTable(t), content))
  }

  lemma TableRoundTrip(t: Table)
    ensures DecodeTable(EncodeTable(t)) == t
  {
    hide EncodeEntry, DecodeEntry;
    var b := EncodeTable(t);
    forall i | 0 <= i < |t|
      ensures DecodeTable(b)[i] == t[i]
    {
      assert b[16 * i..16 * i + 16] == EncodeEntry(t[i]);
      EntryRoundTrip(t[i]);
    }
  }

  const DOT: byte := '.' as int

  /** strcpy(field, ".") and strcpy(field, ".."): the characters, a zero, and the rest as it was. */
  function StrCpyDots(field: NameField, dots: nat): NameField
    requires dots < 10
  {
    seq(10, i requires 0 <= i < 10 => if i < dots then DOT else if i == dots then 0 else field[i])
  }

  function Dots(dots: nat): seq<byte> {
    seq(dots, _ => DOT)
  }

  lemma DotsKey(field: NameField)
    ensures Key(StrCpyDots(field, 1)) == Dots(1) && Key(StrCpyDots(field, 2)) == Dots(2)
  {
    var one, two := StrCpyDots(field, 1), StrCpyDots(field, 2);
    assert KeyUpTo(one[1..], 8) == [];
    assert KeyUpTo(two[1..][1..], 7) == [];
    assert KeyUpTo(two[1..], 8) == [DOT] + KeyUpTo(two[1..][1..], 7);
  }

  /** !strncmp(a, b, FileNameMaxLen), character by character. */
  method StrNCmp(a: seq<byte>, b: seq<byte>) returns (same: bool)
    ensures same <==> SameName(a, b)
  {
    var i := 0;
    while i < FILE_NAME_MAX_LEN
      invariant 0 <= i <= FILE_NAME_MAX_LEN && NoZeroBefore(a, i)
      invariant forall j: nat :: j < i ==> CharAt(a, j) == CharAt(b, j)
    {
      if CharAt(a, i) != CharAt(b, i) {
        return false;
      }
      if CharAt(a, i) == 0 {
        assert forall j: nat :: j > i ==> !NoZeroBefore(a, j);
        return true;
      }
      i := i + 1;
    }
    return true;
  }

  class Directory {
    const table: array<DirectoryEntry>

    constructor (size: int)
      requires size >= 2
      ensures fresh(table) && table.Length == size
      ensures forall i :: 0 <= i < size ==> table[i].InUse() == (i < 2)
      ensures forall i :: 0 <= i < 2 ==> table[i].IsDir() && Key(table[i].name) == Dots(i + 1)
    {
      table := new DirectoryEntry[size];
      new;
      DotsKey(table[0].name);
      DotsKey(table[1].name);
      table[0] := table[0].(inUseAndIsDir := 3, name := StrCpyDots(table[0].name, 1));
      table[1] := table[1].(inUseAndIsDir := 3, name := StrCpyDots(table[1].name, 2));
      for i := 2 to size
        invariant forall j :: 0 <= j < i ==> table[j].InUse() == (j < 2)
        invariant forall j :: 0 <= j < 2 ==> table[j].IsDir() && Key(table[j].name) == Dots(j + 1)
      {
        table[i] := table[i].(inUseAndIsDir := 0);
      }
    }

    method FetchFrom(disk: SynchDisk, file: OpenFile)
      requires table.Length == 10 && Legible(disk.sectors, file.hdr.AsWords(), 0, 0, 160)
      modifies table
      ensures table[..] == Fetched(old(table[..]), Content(disk.sectors, file.hdr.AsWords(), 0))
    {
      hide Legible, Content, Overlaid, EncodeTable, DecodeTable;
      var bytes := FetchObject(disk, file, EncodeTable(table[..]));
      var t := DecodeTable(bytes);
      forall i | 0 <= i < 10 {
        table[i] := t[i];
      }
    }

    method WriteBack(disk: SynchDisk, file: OpenFile)
      requires WellFormed(disk.sectors, file.hdr.AsWords(), 0) && table.Length == 10
      modifies disk
      ensures ChangedOnly(old(disk.sectors), disk.sectors, old(Claims(disk.sectors, file.hdr.AsWords(), 0)))
      ensures Claims(disk.sectors, file.hdr.AsWords(), 0) == old(Claims(disk.sectors, file.hdr.AsWords(), 0))
      ensures Length(file.hdr.AsWords()) == 160 ==>
                DecodeTable(Content(disk.sectors, file.hdr.AsWords(), 0)) == table[..]
    {
      hide WellFormed, Content, Claims, ChangedOnly;
      StoreObject(disk, file, EncodeTable(table[..]));
      TableRoundTrip(table[..]);
    }

    /** The first slot in use whose name strncmp finds to be the same over nine characters. */
    method FindIndex(name: CString) returns (r: int)
      ensures r == FirstFrom(table[..], Key(name), 0)
      ensures -1 <= r < table.Length
      ensures r != -1 ==> table[r].InUse() && SameName(table[r].name, name)
      ensures forall j :: 0 <= j < (if r == -1 then table.Length else r) ==>
                !(table[j].InUse() && SameName(table[j].name, name))
    {
      hide SameName, Key;
      var i := 0;
      while i < table.Length
        invariant 0 <= i <= table.Length
        invariant FirstFrom(table[..], Key(name), 0) == FirstFrom(table[..], Key(name), i)
        invariant forall j :: 0 <= j < i ==> !(table[j].InUse() && SameName(table[j].name, name))
      {
        KeysAgree(table[i].name, name);
        if table[i].InUse() {
          var same := StrNCmp(table[i].name, name);
          if same {
            return i;
          }
        }
        i := i + 1;
      }
      return -1;
    }

    method Find(name: CString) returns (sector: int)
      ensures sector == if Key(name) in Names(table[..]) then Names(table[..])[Key(name)].sector else -1
    {
      var i := FindIndex(name);
      if i != -1 {
        return table[i].sector;
      }
      return -1;
    }

    method Add(name: CString, newSector: int32) returns (ok: bool)
      modifies table
      ensures ok <==> Key(name) !in Names(old(table[..])) && exists i :: 2 <= i < table.Length && !old(table[i]).InUse()
      ensures !ok ==> table[..] == old(table[..])
      ensures ok ==> Names(table[..]) == Names(old(table[..]))[Key(name) := Listed(newSector, false)]
      ensures ok ==> exists i ::
                2 <= i < table.Length && !old(table[i]).InUse() && (forall j :: 2 <= j < i ==> old(table[j]).InUse())
                && table[..] == Filled(old(table[..]), i, name, newSector, false)
    {
      var present := FindIndex(name);
      if present != -1 {
        return false;
      }
      ok := FillFreeSlot(name, newSector, false);
    }

    method AddDirectory(name: CString, sector: int32) returns (ok: bool)
      modifies table
      ensures ok <==> exists i :: 2 <= i < table.Length && !old(table[i]).InUse()
      ensures !ok ==> table[..] == old(table[..])
      ensures ok && Key(name) !in Names(old(table[..])) ==>
                Names(table[..]) == Names(old(table[..]))[Key(name) := Listed(sector, true)]
      ensures ok ==> exists i ::
                2 <= i < table.Length && !old(table[i]).InUse() && (forall j :: 2 <= j < i ==> old(table[j]).InUse())
                && table[..] == Filled(old(table[..]), i, name, sector, true)
    {
      ok := FillFreeSlot(name, sector, true);
    }

    /** The loop that Add and AddDirectory share: the first free slot from slot 2 on takes the name. */
    method FillFreeSlot(name: CString, sector: int32, isDir: bool) returns (ok: bool)
      modifies table
      ensures ok <==> exists i :: 2 <= i < table.Length && !old(table[i]).InUse()
      ensures !ok ==> table[..] == old(table[..])
      ensures ok && Key(name) !in Names(old(table[..])) ==>
                Names(table[..]) == Names(old(table[..]))[Key(name) := Listed(sector, isDir)]
      ensures ok ==> exists i ::
                2 <= i < table.Length && !old(table[i]).InUse() && (forall j :: 2 <= j < i ==> old(table[j]).InUse())
                && table[..] == Filled(old(table[..]), i, name, sector, isDir)
    {
      hide Filled, Names, StrNCpy;
      var i := 2;
      while i < table.Length
        invariant 2 <= i
        invariant forall j :: 2 <= j < i && j < table.Length ==> table[j].InUse()
        invariant table[..] == old(table[..])
      {
        if !table[i].InUse() {
          ghost var t := table[..];
          table[i] := table[i].SetInUse(true).SetIsDir(isDir).(name := StrNCpy(table[i].name, name), sector := sector);
          assert table[..] == Filled(t, i, name, sector, isDir) by { FilledIs(t, i, name, sector, isDir, table[..]); }
          if Key(name) !in Names(t) {
            FilledNames(t, i, name, sector, isDir);
          }
          return true;
        }
        i := i + 1;
      }
      return false;
    }

    method Remove(name: CString) returns (ok: bool)
      modifies table
      ensures ok <==> Key(name) in Names(old(table[..]))
      ensures !ok ==> table[..] == old(table[..])
      ensures ok ==> var i := FirstFrom(old(table[..]), Key(name), 0);
                     table[..] == old(table[..])[i := old(table[i]).SetInUse(false)]
      ensures DistinctKeys(old(table[..])) ==>
                Names(table[..]) == Names(old(table[..])) - {Key(name)} && DistinctKeys(table[..])
    {
      var i := FindIndex(name);
      if i == -1 {
        return false;
      }
      if DistinctKeys(table[..]) {
        FreedNames(table[..], i, Key(name));
      }
      table[i] := table[i].SetInUse(false);
      return true;
    }

    method IsEmpty() returns (r: bool)
      requires table.Length >= 10
      ensures r <==> forall i :: 2 <= i < 10 ==> !table[i].InUse()
    {
      var i := 2;
      while i < 10
        invariant 2 <= i <= 10
        invariant forall j :: 2 <= j < i ==> !table[j].InUse()
      {
        if table[i].InUse() {
          return false;
        }
        i := i + 1;
      }
      return true;
    }

    function GetSector(): int32
      requires table.Length > 0
      reads table
    {
      table[0].sector
    }
  }
}
