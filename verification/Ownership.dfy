/** Which sector belongs to whom. `place` records, for every sector in use, its owner (named by its header
    sector) and its position among the owner's sectors, so that one map says that no sector has two owners. */
module Ownership {
  import opened Bytes
  import opened Storage
  import opened BitMaps
  import opened FileHeaders
  import opened FileHeaderTheorems
  import opened OpenFiles

  type Places = map<int, (int, int)>

  /** Ordinary files are reached through index blocks, everything else directly. */
  function ModeOf(files: set<int>, o: int): int {
    if o in files then 1 else 0
  }

  /** Everything an owner owns: its header, its index blocks, its data blocks. */
  function Owned(img: Image, o: int, mode: int): (s: seq<int>)
    ensures |s| > 0 && s[0] == o
  {
    [o] + Claims(img, Words(img, o), mode)
  }

  /** How many of those are the header and the index blocks. */
  function MetaCount(img: Image, o: int, mode: int): (n: nat)
    ensures n > 0
  {
    if mode == 0 then 1 else 1 + IndexCount(Words(img, o)[1])
  }

  ghost predicate OwnerOk(img: Image, o: int, mode: int, place: Places) {
    && OnDisk(o) && WellFormed(img, Words(img, o), mode)
    && forall k :: 0 <= k < |Owned(img, o, mode)| ==>
          Owned(img, o, mode)[k] in place && place[Owned(img, o, mode)[k]] == (o, k)
  }

  ghost predicate PlacedOk(img: Image, x: int, place: Places, files: set<int>, owners: set<int>) {
    && OnDisk(x) && x in place && place[x].0 in owners
    && 0 <= place[x].1 < |Owned(img, place[x].0, ModeOf(files, place[x].0))|
    && Owned(img, place[x].0, ModeOf(files, place[x].0))[place[x].1] == x
  }

  ghost predicate PlaceOk(img: Image, place: Places, files: set<int>, owners: set<int>) {
    && (forall o :: o in owners ==> OwnerOk(img, o, ModeOf(files, o), place))
    && (forall x :: x in place ==> PlacedOk(img, x, place, files, owners))
  }

  ghost predicate AllMarked(bits: Bits, place: Places) {
    forall x :: x in place ==> OnDisk(x) && bits[x]
  }

  /** No sector is marked without an owner. */
  ghost predicate NoLeak(bits: Bits, place: Places) {
    forall x :: OnDisk(x) && bits[x] ==> x in place
  }

  /** Exactly the sectors of b have joined those that are marked without an owner. */
  ghost predicate Leaked(bits0: Bits, pl0: Places, bits: Bits, pl: Places, b: set<int>) {
    forall x :: OnDisk(x) ==> (bits[x] && x !in pl <==> (bits0[x] && x !in pl0) || x in b)
  }

  /** Only unowned sectors and data blocks of the owners in ds differ. */
  ghost predicate Confined(img: Image, cur: Image, place: Places, files: set<int>, ds: set<int>) {
    forall x :: x in place && !(place[x].0 in ds && place[x].1 >= MetaCount(img, place[x].0, ModeOf(files, place[x].0)))
      ==> Sec(cur, x) == Sec(img, x)
  }

  /** A confined change leaves an owner's header and map as they were. */
  lemma OwnerKept(img: Image, cur: Image, place: Places, files: set<int>, owners: set<int>, ds: set<int>, o: int)
    requires PlaceOk(img, place, files, owners) && Confined(img, cur, place, files, ds) && o in owners
    ensures Words(cur, o) == Words(img, o)
    ensures Owned(cur, o, ModeOf(files, o)) == Owned(img, o, ModeOf(files, o))
    ensures OwnerOk(cur, o, ModeOf(files, o), place)
  {
    hide WellFormed, Sec, DecodeWords, Claims, Entries;
    var mode := ModeOf(files, o);
    var own, h := Owned(img, o, mode), Words(img, o);
    assert OwnerOk(img, o, mode, place) && own[0] == o;
    if mode != 0 {
      forall x | x in Entries(h, IndexCount(h[1]))
        ensures Sec(cur, x) == Sec(img, x)
      {
        var j := IndexBlockOwned(img, o, mode, x);
        assert own[j] == x;
      }
    }
    ClaimsKept(img, cur, h, mode);
  }

  lemma IndexBlockOwned(img: Image, o: int, mode: int, x: int32) returns (j: nat)
    requires mode != 0 && WellFormed(img, Words(img, o), mode)
    requires x in Entries(Words(img, o), IndexCount(Words(img, o)[1]))
    ensures 0 < j < MetaCount(img, o, mode) && j < |Owned(img, o, mode)| && Owned(img, o, mode)[j] == x
  {
    hide Distinct, AllOnDisk, SectorCount, DecodeWords, Blocks;
    var t := Entries(Words(img, o), IndexCount(Words(img, o)[1]));
    j :| 0 <= j < |t| && t[j] == x;
    j := j + 1;
  }

  /** After its header and index blocks, an owner owns its data blocks in order. */
  lemma DataBlockOwned(img: Image, o: int, mode: int, k: nat)
    requires WellFormed(img, Words(img, o), mode) && k < Words(img, o)[1]
    ensures MetaCount(img, o, mode) + k < |Owned(img, o, mode)|
    ensures Owned(img, o, mode)[MetaCount(img, o, mode) + k] == Blocks(img, Words(img, o), mode, Words(img, o)[1])[k]
  {
    hide Distinct, AllOnDisk, SectorCount, DecodeWords, Blocks;
  }

  /** Ownership survives a confined change. */
  lemma PlaceKept(img: Image, cur: Image, place: Places, files: set<int>, owners: set<int>, ds: set<int>)
    requires PlaceOk(img, place, files, owners) && Confined(img, cur, place, files, ds)
    ensures PlaceOk(cur, place, files, owners)
  {
    hide Owned, OwnerOk, Confined;
    forall o | o in owners
      ensures OwnerOk(cur, o, ModeOf(files, o), place)
      ensures Owned(cur, o, ModeOf(files, o)) == Owned(img, o, ModeOf(files, o))
    {
      OwnerKept(img, cur, place, files, owners, ds, o);
    }
    forall x | x in place
      ensures PlacedOk(cur, x, place, files, owners)
    {
      assert PlacedOk(img, x, place, files, owners);
    }
  }

  /** Isolation: an owner outside ds reads the same after a confined change. */
  lemma OthersKept(img: Image, cur: Image, place: Places, files: set<int>, owners: set<int>, ds: set<int>, o: int)
    requires PlaceOk(img, place, files, owners) && Confined(img, cur, place, files, ds) && o in owners && o !in ds
    ensures Words(cur, o) == Words(img, o)
    ensures Content(cur, Words(cur, o), ModeOf(files, o)) == Content(img, Words(img, o), ModeOf(files, o))
  {
    hide WellFormed, Sec, DecodeWords, Claims, Content;
    OwnerKept(img, cur, place, files, owners, ds, o);
    var mode := ModeOf(files, o);
    var own := Owned(img, o, mode);
    assert OwnerOk(img, o, mode, place);
    forall x | x in Claims(img, Words(img, o), mode)
      ensures Sec(cur, x) == Sec(img, x)
    {
      var k :| 0 <= k < |Claims(img, Words(img, o), mode)| && Claims(img, Words(img, o), mode)[k] == x;
      assert own[k + 1] == x;
    }
    Untouched(img, cur, Words(img, o), mode);
  }

  /** The sectors of c, each placed at its index under owner o. */
  function PlacesOf(o: int, c: seq<int>): (m: Places)
    ensures forall x :: x in m <==> x in c
    ensures forall x :: x in m ==> m[x].0 == o && 0 <= m[x].1 < |c| && c[m[x].1] == x
  {
    if c == [] then map[] else PlacesOf(o, c[..|c| - 1])[c[|c| - 1] := (o, |c| - 1)]
  }

  lemma PlacedDistinctly(o: int, c: seq<int>, k: nat)
    requires Distinct(c) && k < |c|
    ensures c[k] in PlacesOf(o, c) && PlacesOf(o, c)[c[k]] == (o, k)
  {
  }

  /** A new owner whose sectors nobody owned joins the others. */
  lemma AddOwner(img: Image, place: Places, files: set<int>, owners: set<int>, s: int, mode: int, files2: set<int>)
    requires PlaceOk(img, place, files, owners) && s !in owners && files <= owners
    requires files2 == (if mode == 0 then files else files + {s}) && (mode == 0 || mode == 1)
    requires OnDisk(s) && WellFormed(img, Words(img, s), mode)
    requires Distinct(Owned(img, s, mode)) && forall x :: x in Owned(img, s, mode) ==> x !in place && OnDisk(x)
    ensures PlaceOk(img, place + PlacesOf(s, Owned(img, s, mode)), files2, owners + {s})
  {
    hide Owned, WellFormed, PlacesOf;
    var own := Owned(img, s, mode);
    var more := PlacesOf(s, own);
    var place2 := place + more;
    assert s !in files;
    forall o | o in owners + {s}
      ensures OwnerOk(img, o, ModeOf(files2, o), place2)
    {
      if o == s {
        forall k | 0 <= k < |own|
          ensures own[k] in place2 && place2[own[k]] == (s, k)
        {
          PlacedDistinctly(s, own, k);
        }
      } else {
        assert OwnerOk(img, o, ModeOf(files, o), place);
      }
    }
    forall x | x in place2
      ensures PlacedOk(img, x, place2, files2, owners + {s})
    {
      if x !in more {
        assert PlacedOk(img, x, place, files, owners);
      }
    }
  }

  function WithoutOwners(place: Places, gone: set<int>): Places {
    map x | x in place && place[x].0 !in gone :: place[x]
  }

  /** Owners leave, and the others still own exactly what they did. */
  lemma RemoveOwners(img: Image, place: Places, files: set<int>, owners: set<int>, gone: set<int>)
    requires PlaceOk(img, place, files, owners)
    ensures PlaceOk(img, WithoutOwners(place, gone), files - gone, owners - gone)
  {
    hide Owned, WellFormed;
    forall o | o in owners - gone
      ensures OwnerOk(img, o, ModeOf(files - gone, o), WithoutOwners(place, gone))
    {
      assert OwnerOk(img, o, ModeOf(files, o), place);
    }
    forall x | x in WithoutOwners(place, gone)
      ensures PlacedOk(img, x, WithoutOwners(place, gone), files - gone, owners - gone)
    {
      assert PlacedOk(img, x, place, files, owners);
    }
  }
}
