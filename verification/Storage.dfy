/** The disk as its synchronous users see it: 1024 sectors of 128 bytes, read and written whole.
    (SynchDiskProtocol shows that the lock and semaphore around the device deliver this view.) */
module Storage {
  import opened Bytes

  const SECTOR_SIZE := 128
  const NUM_SECTORS := 1024

  type Sector = s: seq<byte> | |s| == SECTOR_SIZE witness seq(SECTOR_SIZE, _ => 0)

  function Blank(): Sector {
    seq(SECTOR_SIZE, _ => 0)
  }

  type Image = d: seq<Sector> | |d| == NUM_SECTORS witness seq<Sector>(NUM_SECTORS, _ => Blank())

  predicate OnDisk(x: int) {
    0 <= x < NUM_SECTORS
  }

  predicate AllOnDisk(xs: seq<int>) {
    forall x :: x in xs ==> OnDisk(x)
  }

  /** Sector x of an image; zeros for a number that is not a sector's. */
  function Sec(img: Image, x: int): Sector {
    if OnDisk(x) then img[x] else Blank()
  }

  /** Sector x read as 32 integers, the way an index block is laid over a header. */
  function Words(img: Image, x: int): (ws: seq<int32>)
    ensures |ws| == 32
  {
    DecodeWords(Sec(img, x))
  }

  /** b differs from a at most in the sectors of xs. */
  ghost predicate ChangedOnly(a: Image, b: Image, xs: seq<int>) {
    forall x :: OnDisk(x) && x !in xs ==> a[x] == b[x]
  }

  lemma ChangedOnlyAppend(a: Image, b: Image, c: Image, xs: seq<int>, y: int)
    requires ChangedOnly(a, b, xs) && ChangedOnly(b, c, [y])
    ensures ChangedOnly(a, c, xs + [y])
  {
  }

  class SynchDisk {
    var sectors: Image

    method ReadSector(sectorNumber: int) returns (data: Sector)
      requires OnDisk(sectorNumber)
      ensures data == Sec(sectors, sectorNumber)
    {
      data := sectors[sectorNumber];
    }

    method WriteSector(sectorNumber: int, data: Sector)
      requires OnDisk(sectorNumber)
      modifies this
      ensures sectors == old(sectors)[sectorNumber := data]
    {
      sectors := sectors[sectorNumber := data];
    }
  }

  /** bcopy between two distinct buffers. */
  method BCopy(from: array<byte>, fromAt: nat, into: array<byte>, at: nat, n: nat)
    requires from != into
    requires fromAt + n <= from.Length && at + n <= into.Length
    modifies into
    ensures forall k :: at <= k < at + n ==> into[k] == from[fromAt + (k - at)]
    ensures forall k :: 0 <= k < into.Length && !(at <= k < at + n) ==> into[k] == old(into[k])
  {
    forall k | at <= k < at + n {
      into[k] := from[fromAt + (k - at)];
    }
  }
}
