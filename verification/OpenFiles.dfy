/** Open files: byte ranges read and written through whole sectors. */
module OpenFiles {
  import opened Bytes
  import opened Storage
  import opened FileHeaders
  import opened FileHeaderTheorems

  /** Every sector a header stands for: its index blocks, if it has any, then its data blocks. */
  function Claims(img: Image, h: Header, mode: int): (s: seq<int32>) {
    var n := if h[1] < 0 then 0 else h[1];
    if mode == 0 then Blocks(img, h, 0, n) else Entries(h, IndexCount(h[1])) + Blocks(img, h, mode, n)
  }

  /** A header whose blocks are all there: different sectors of the disk, none of them an index block. */
  ghost predicate WellFormed(img: Image, h: Header, mode: int) {
    && h[1] == SectorCount(h[0]) && 0 <= h[1] <= (if mode == 0 then 30 else 960)
    && Distinct(Claims(img, h, mode)) && AllOnDisk(Claims(img, h, mode))
  }

  /** The data blocks of a well-formed header, and its index blocks when it has any. */
  lemma BlockFacts(img: Image, h: Header, mode: int)
    requires WellFormed(img, h, mode)
    ensures h[1] == SectorCount(h[0]) && 0 <= h[1] <= (if mode == 0 then 30 else 960)
    ensures Distinct(Blocks(img, h, mode, h[1])) && AllOnDisk(Blocks(img, h, mode, h[1]))
    ensures mode != 0 ==> AllOnDisk(Entries(h, IndexCount(h[1])))
                          && forall x :: x in Blocks(img, h, mode, h[1]) ==> x !in Entries(h, IndexCount(h[1]))
  {
    hide Blocks, Entries;
    var data := Blocks(img, h, mode, h[1]);
    if mode != 0 {
      DataApart(Entries(h, IndexCount(h[1])), data);
      assert forall x :: x in data ==> x in Claims(img, h, mode);
      assert forall x :: x in Entries(h, IndexCount(h[1])) ==> x in Claims(img, h, mode);
    }
  }

  /** Reading or writing block k meets no assertion of the disk. */
  lemma BlockAt(img: Image, h: Header, mode: int, k: nat)
    requires WellFormed(img, h, mode) && k < h[1]
    ensures OnDisk(SectorOf(img, h, mode, k))
    ensures mode == 0 ==> k < 30
    ensures mode != 0 ==> k < 960 && OnDisk(h[2 + k / 32])
  {
    BlockFacts(img, h, mode);
    assert Blocks(img, h, mode, h[1])[k] == SectorOf(img, h, mode, k);
    assert mode != 0 ==> h[2 + k / 32] == Entries(h, IndexCount(h[1]))[k / 32];
  }

  function Length(h: Header): nat {
    if h[0] < 0 then 0 else h[0]
  }

  function FileByte(img: Image, h: Header, mode: int, p: nat): byte {
    Sec(img, SectorOf(img, h, mode, p / 128))[p % 128]
  }

  /** The file a header stands for, as a byte sequence. */
  function Content(img: Image, h: Header, mode: int): (s: seq<byte>)
    ensures |s| == Length(h)
  {
    seq(Length(h), p requires 0 <= p < Length(h) => FileByte(img, h, mode, p))
  }

  /** How much of a request at position falls inside a file of the given length: as much as can. */
  function Clip(length: nat, position: nat, numBytes: int): (n: nat)
    ensures n > 0 ==> position + n <= length && n <= numBytes
    ensures numBytes > 0 && position < length ==> n > 0 && (n == numBytes || position + n == length)
  {
    if numBytes <= 0 || position >= length then 0
    else if position + numBytes > length then length - position
    else numBytes
  }

  /** Reading block k meets no assertion of the disk, and the block is in the header's table. */
  predicate BlockThere(img: Image, h: Header, mode: int, k: nat) {
    && OnDisk(SectorOf(img, h, mode, k))
    && (if mode == 0 then k < 30 else k < 960 && OnDisk(h[2 + k / 32]))
  }

  /** All the blocks that a read of numBytes at position reaches into are there. */
  predicate Legible(img: Image, h: Header, mode: int, position: nat, numBytes: int) {
    var n := Clip(Length(h), position, numBytes);
    n > 0 ==> forall k: nat :: position / 128 <= k <= (position + n - 1) / 128 ==> BlockThere(img, h, mode, k)
  }

  lemma ThereIs(img: Image, h: Header, mode: int, k: nat)
    requires BlockThere(img, h, mode, k)
    ensures OnDisk(SectorOf(img, h, mode, k))
    ensures if mode == 0 then k < 30 else k < 960 && OnDisk(h[2 + k / 32])
  {
  }

  lemma WellFormedIsLegible(img: Image, h: Header, mode: int, position: nat, numBytes: int)
    requires WellFormed(img, h, mode)
    ensures Legible(img, h, mode, position, numBytes)
  {
    hide WellFormed, SectorOf;
    BlockFacts(img, h, mode);
    var n := Clip(Length(h), position, numBytes);
    if n > 0 {
      forall k: nat | position / 128 <= k <= (position + n - 1) / 128
        ensures BlockThere(img, h, mode, k)
      {
        BlockAt(img, h, mode, k);
      }
    }
  }

  /** The bytes of block i are those of its sector. */
  lemma BlockBytes(img: Image, h: Header, mode: int, i: nat)
    ensures forall p :: 128 * i <= p < 128 * i + 128 ==>
              FileByte(img, h, mode, p) == Sec(img, SectorOf(img, h, mode, i))[p - 128 * i]
  {
  }

  lemma ContentBytes(img: Image, h: Header, mode: int)
    ensures forall p :: 0 <= p < Length(h) ==> Content(img, h, mode)[p] == FileByte(img, h, mode, p)
  {
  }

  lemma ContentByte(img: Image, h: Header, mode: int, p: nat)
    requires p < Length(h)
    ensures Content(img, h, mode)[p] == FileByte(img, h, mode, p)
  {
  }

  lemma LengthBound(img: Image, h: Header, mode: int)
    requires WellFormed(img, h, mode)
    ensures Length(h) <= 128 * h[1] <= 122880
  {
  }

  lemma ClipBlock(length: nat, k: nat)
    requires 128 * k < length
    ensures Clip(length, 128 * k, 128) == if length < 128 * k + 128 then length - 128 * k else 128
  {
  }

  method PutSector(data: Sector, buf: array<byte>, at: nat)
    requires at + 128 <= buf.Length
    modifies buf
    ensures forall k :: at <= k < at + 128 ==> buf[k] == data[k - at]
    ensures forall k :: 0 <= k < buf.Length && !(at <= k < at + 128) ==> buf[k] == old(buf[k])
  {
    forall k | at <= k < at + 128 {
      buf[k] := data[k - at];
    }
  }

  /** data written over s at position, as far as it is inside s. */
  function Splice(s: seq<byte>, position: nat, data: seq<byte>): (r: seq<byte>)
    requires data == [] || position + |data| <= |s|
    ensures |r| == |s|
    ensures forall p :: 0 <= p < |s| ==> r[p] == if position <= p < position + |data| then data[p - position] else s[p]
  {
    seq(|s|, p requires 0 <= p < |s| => if position <= p < position + |data| then data[p - position] else s[p])
  }

  lemma NothingWritten(s: seq<byte>, position: nat, data: seq<byte>)
    requires data == []
    ensures Splice(s, position, data) == s
  {
  }

  /** A header's map depends on its index blocks only. */
  lemma ClaimsKept(img: Image, cur: Image, h: Header, mode: int)
    requires WellFormed(img, h, mode)
    requires mode != 0 ==> forall x :: x in Entries(h, IndexCount(h[1])) ==> Sec(cur, x) == Sec(img, x)
    ensures forall k :: 0 <= k < h[1] ==> SectorOf(cur, h, mode, k) == SectorOf(img, h, mode, k)
    ensures Claims(cur, h, mode) == Claims(img, h, mode) && WellFormed(cur, h, mode)
  {
    hide Distinct, DecodeWords, Sec;
    forall k | 0 <= k < h[1]
      ensures SectorOf(cur, h, mode, k) == SectorOf(img, h, mode, k)
    {
      if mode != 0 {
        assert Entries(h, IndexCount(h[1]))[k / 32] == h[2 + k / 32];
      }
    }
    assert Blocks(cur, h, mode, h[1]) == Blocks(img, h, mode, h[1]);
  }

  /** Writing a file's blocks leaves its index blocks, and so its map, as they were. */
  lemma MapKept(img: Image, cur: Image, h: Header, mode: int)
    requires WellFormed(img, h, mode) && ChangedOnly(img, cur, Blocks(img, h, mode, h[1]))
    ensures forall k :: 0 <= k < h[1] ==> SectorOf(cur, h, mode, k) == SectorOf(img, h, mode, k)
    ensures Claims(cur, h, mode) == Claims(img, h, mode)
  {
    hide Distinct, WellFormed, Blocks, Entries, SectorOf;
    BlockFacts(img, h, mode);
    ClaimsKept(img, cur, h, mode);
  }

  ghost predicate HoldsAt(s: Sector, bytes: seq<byte>, off: nat)
    requires off + 128 <= |bytes|
  {
    forall r :: 0 <= r < 128 ==> s[r] == bytes[off + r]
  }

  /** cur is img with blocks first up to (not including) i of the file overwritten by the start of bytes. */
  ghost predicate WrittenUpTo(img: Image, cur: Image, h: Header, mode: int, bytes: seq<byte>, first: nat, i: nat)
    requires |bytes| >= 128 * (i - first)
  {
    && h[1] >= 0 && ChangedOnly(img, cur, Blocks(img, h, mode, h[1]))
    && forall k :: 0 <= k < h[1] ==>
         if first <= k < i then HoldsAt(Sec(cur, SectorOf(img, h, mode, k)), bytes, 128 * (k - first))
         else Sec(cur, SectorOf(img, h, mode, k)) == Sec(img, SectorOf(img, h, mode, k))
  }

  lemma WriteStart(img: Image, h: Header, mode: int, bytes: seq<byte>, first: nat)
    requires h[1] >= 0
    ensures WrittenUpTo(img, img, h, mode, bytes, first, first)
  {
  }

  lemma MapNow(img: Image, cur: Image, h: Header, mode: int, bytes: seq<byte>, first: nat, i: nat)
    requires WellFormed(img, h, mode) && i < h[1]
    requires |bytes| >= 128 * (i - first) && WrittenUpTo(img, cur, h, mode, bytes, first, i)
    ensures SectorOf(cur, h, mode, i) == SectorOf(img, h, mode, i)
  {
    MapKept(img, cur, h, mode);
  }

  lemma BlockListed(img: Image, h: Header, mode: int, i: nat)
    requires i < h[1]
    ensures SectorOf(img, h, mode, i) in Blocks(img, h, mode, h[1])
  {
    assert Blocks(img, h, mode, h[1])[i] == SectorOf(img, h, mode, i);
  }

  lemma SecAfter(cur: Image, x: int, data: Sector, after: Image)
    requires OnDisk(x) && after == cur[x := data]
    ensures Sec(after, x) == data
    ensures forall y :: y != x ==> Sec(after, y) == Sec(cur, y)
  {
  }

  lemma BlocksApart(img: Image, h: Header, mode: int, i: nat, k: nat)
    requires WellFormed(img, h, mode) && i < h[1] && k < h[1] && i != k
    ensures SectorOf(img, h, mode, i) != SectorOf(img, h, mode, k)
  {
    BlockFacts(img, h, mode);
    var b := Blocks(img, h, mode, h[1]);
    assert b[i] == SectorOf(img, h, mode, i) && b[k] == SectorOf(img, h, mode, k);
  }

  lemma WriteStep(img: Image, cur: Image, h: Header, mode: int, bytes: seq<byte>, first: nat, i: nat, data: Sector,
                  after: Image)
    requires WellFormed(img, h, mode) && first <= i < h[1]
    requires |bytes| >= 128 * (i - first) + 128 && WrittenUpTo(img, cur, h, mode, bytes, first, i)
    requires HoldsAt(data, bytes, 128 * (i - first))
    requires OnDisk(SectorOf(img, h, mode, i)) && after == cur[SectorOf(img, h, mode, i) := data]
    ensures WrittenUpTo(img, after, h, mode, bytes, first, i + 1)
  {
    hide SectorOf, WellFormed, Blocks, HoldsAt, Sec;
    var x := SectorOf(img, h, mode, i);
    BlockListed(img, h, mode, i);
    SecAfter(cur, x, data, after);
    forall k | 0 <= k < h[1] && k != i
      ensures SectorOf(img, h, mode, k) != x
    {
      BlocksApart(img, h, mode, i, k);
    }
  }

  lemma BlockOf(p: nat) returns (k: nat, r: nat)
    ensures p == 128 * k + r && r < 128
  {
    k, r := p / 128, p % 128;
  }

  lemma BlockAndRest(k: nat, r: nat)
    requires r < 128
    ensures (128 * k + r) / 128 == k && (128 * k + r) % 128 == r
  {
  }

  /** Byte 128 * k + r of a file is byte r of its block k. */
  lemma ByteInBlock(img: Image, h: Header, mode: int, k: nat, r: nat)
    requires r < 128
    ensures FileByte(img, h, mode, 128 * k + r) == Sec(img, SectorOf(img, h, mode, k))[r]
  {
    hide SectorOf, Sec;
    BlockAndRest(k, r);
  }

  lemma WrittenMap(img: Image, cur: Image, h: Header, mode: int, bytes: seq<byte>, first: nat, last: nat)
    requires WellFormed(img, h, mode) && first <= last < h[1] && |bytes| == 128 * (1 + last - first)
    requires WrittenUpTo(img, cur, h, mode, bytes, first, last + 1)
    ensures Claims(cur, h, mode) == Claims(img, h, mode)
    ensures ChangedOnly(img, cur, Blocks(img, h, mode, h[1]))
  {
    MapKept(img, cur, h, mode);
  }

  /** bytes, which stand for the file from block first on, hold data at position and the old file around it. */
  ghost predicate BufferReady(img: Image, h: Header, mode: int, bytes: seq<byte>, first: nat, position: nat,
                              data: seq<byte>) {
    forall q :: 0 <= q < |bytes| && 128 * first + q < Length(h) ==>
      bytes[q] == if position <= 128 * first + q < position + |data| then data[128 * first + q - position]
           else FileByte(img, h, mode, 128 * first + q)
  }

  lemma WriteEndByte(img: Image, cur: Image, h: Header, mode: int, bytes: seq<byte>, first: nat, last: nat,
                     position: nat, data: seq<byte>, k: nat, r: nat)
    requires WellFormed(img, h, mode) && first <= last < h[1] && |bytes| == 128 * (1 + last - first)
    requires WrittenUpTo(img, cur, h, mode, bytes, first, last + 1)
    requires BufferReady(img, h, mode, bytes, first, position, data)
    requires 128 * first <= position && position + |data| <= 128 * last + 128
    requires r < 128 && 128 * k + r < Length(h) && k < h[1]
    ensures FileByte(cur, h, mode, 128 * k + r)
         == if position <= 128 * k + r < position + |data| then data[128 * k + r - position]
              else FileByte(img, h, mode, 128 * k + r)
  {
    hide WellFormed, Blocks, Claims, FileByte, SectorOf, Sec, ChangedOnly;
    MapKept(img, cur, h, mode);
    ByteInBlock(cur, h, mode, k, r);
    ByteInBlock(img, h, mode, k, r);
    if first <= k <= last {
      assert HoldsAt(Sec(cur, SectorOf(img, h, mode, k)), bytes, 128 * (k - first));
      assert Sec(cur, SectorOf(img, h, mode, k))[r] == bytes[128 * (k - first) + r];
    }
  }

  lemma SpliceContent(img: Image, cur: Image, h: Header, mode: int, position: nat, data: seq<byte>)
    requires position + |data| <= Length(h)
    requires forall p :: 0 <= p < Length(h) ==>
               FileByte(cur, h, mode, p) == if position <= p < position + |data| then data[p - position]
                    else FileByte(img, h, mode, p)
    ensures Content(cur, h, mode) == Splice(Content(img, h, mode), position, data)
  {
    hide FileByte;
  }

  /** The file after its blocks first to last were overwritten by such a buffer. */
  lemma WriteEnd(img: Image, cur: Image, h: Header, mode: int, bytes: seq<byte>, first: nat, last: nat, position: nat,
                 data: seq<byte>)
    requires WellFormed(img, h, mode) && first <= last < h[1] && |bytes| == 128 * (1 + last - first)
    requires WrittenUpTo(img, cur, h, mode, bytes, first, last + 1)
    requires BufferReady(img, h, mode, bytes, first, position, data)
    requires 128 * first <= position && position + |data| <= Length(h) && position + |data| <= 128 * last + 128
    ensures Claims(cur, h, mode) == Claims(img, h, mode)
    ensures ChangedOnly(img, cur, Blocks(img, h, mode, h[1]))
    ensures Content(cur, h, mode) == Splice(Content(img, h, mode), position, data)
  {
    hide *;
    WrittenMap(img, cur, h, mode, bytes, first, last);
    LengthBound(img, h, mode);
    forall p | 0 <= p < Length(h)
      ensures FileByte(cur, h, mode, p) == if position <= p < position + |data| then data[p - position]
           else FileByte(img, h, mode, p)
    {
      var k, r := BlockOf(p);
      WriteEndByte(img, cur, h, mode, bytes, first, last, position, data, k, r);
    }
    SpliceContent(img, cur, h, mode, position, data);
  }

  method GetSector(buf: array<byte>, at: nat) returns (data: Sector)
    requires at + 128 <= buf.Length
    ensures HoldsAt(data, buf[..], at)
  {
    data := buf[at..at + 128];
  }

  class OpenFile {
    const hdr: FileHeader
    var seekPosition: int

    constructor (disk: SynchDisk, sector: int)
      requires OnDisk(sector)
      ensures fresh(hdr) && seekPosition == 0 && hdr.AsWords() == Words(disk.sectors, sector)
    {
      hdr := new FileHeader();
      seekPosition := 0;
      new;
      hdr.FetchFrom(disk, sector);
    }

    method Seek(position: int)
      modifies this
      ensures seekPosition == position
    {
      seekPosition := position;
    }

    /** Blocks firstSector to lastSector of the file, in a new buffer. */
    method ReadSectors(disk: SynchDisk, firstSector: nat, lastSector: int, mode: int) returns (buf: array<byte>)
      requires firstSector <= lastSector + 1
      requires forall k: nat :: firstSector <= k <= lastSector ==> BlockThere(disk.sectors, hdr.AsWords(), mode, k)
      ensures fresh(buf) && buf.Length == (1 + lastSector - firstSector) * 128
      ensures forall q :: 0 <= q < buf.Length ==>
                buf[q] == FileByte(disk.sectors, hdr.AsWords(), mode, 128 * firstSector + q)
    {
      hide *;
      buf := new byte[(1 + lastSector - firstSector) * 128];
      ghost var img, h := disk.sectors, hdr.AsWords();
      var i := firstSector;
      while i <= lastSector
        invariant firstSector <= i <= lastSector + 1
        invariant forall q :: 0 <= q < 128 * (i - firstSector) ==>
                  buf[q] == FileByte(img, h, mode, 128 * firstSector + q)
      {
        ThereIs(img, h, mode, i);
        BlockBytes(img, h, mode, i);
        assert i * 128 / 128 == i;
        var sector := hdr.ByteToSector(disk, i * 128, mode);
        var data := disk.ReadSector(sector);
        PutSector(data, buf, (i - firstSector) * 128);
        i := i + 1;
      }
    }

    method ReadAt(disk: SynchDisk, into: array<byte>, at: nat, numBytes: int, position: int, mode: int)
      returns (result: int)
      requires 0 <= position && position + numBytes < 0x8000_0000
      requires Legible(disk.sectors, hdr.AsWords(), mode, position, numBytes)
      requires at + Clip(Length(hdr.AsWords()), position, numBytes) <= into.Length
      modifies into
      ensures result == Clip(Length(hdr.AsWords()), position, numBytes)
      ensures forall k :: at <= k < at + result ==>
                into[k] == Content(disk.sectors, hdr.AsWords(), mode)[position + (k - at)]
      ensures forall k :: 0 <= k < into.Length && !(at <= k < at + result) ==> into[k] == old(into[k])
    {
      hide BlockThere, Content, SectorOf, Words, FileByte;
      var fileLength := hdr.FileLength();
      if numBytes <= 0 || position >= fileLength {
        return 0;
      }
      result := if position + numBytes > fileLength then fileLength - position else numBytes;
      var firstSector := position / 128;
      var lastSector := (position + result - 1) / 128;
      ghost var img, h := disk.sectors, hdr.AsWords();
      ContentBytes(img, h, mode);
      var buf := ReadSectors(disk, firstSector, lastSector, mode);
      BCopy(buf, position - firstSector * 128, into, at, result);
    }

    /** ReadAt of one whole block, as far as the file reaches into it. */
    method ReadBlock(disk: SynchDisk, buf: array<byte>, at: nat, k: nat, mode: int)
      requires WellFormed(disk.sectors, hdr.AsWords(), mode) && 128 * k < Length(hdr.AsWords())
      requires at + 128 <= buf.Length
      modifies buf
      ensures forall p :: 128 * k <= p < 128 * k + 128 && p < Length(hdr.AsWords()) ==>
                buf[at + (p - 128 * k)] == FileByte(disk.sectors, hdr.AsWords(), mode, p)
      ensures forall q :: 0 <= q < buf.Length && !(at <= q < at + 128) ==> buf[q] == old(buf[q])
    {
      hide *;
      ghost var h := hdr.AsWords();
      LengthBound(disk.sectors, h, mode);
      WellFormedIsLegible(disk.sectors, h, mode, 128 * k, 128);
      assert Clip(Length(h), 128 * k, 128) == if Length(h) < 128 * k + 128 then Length(h) - 128 * k else 128 by {
        ClipBlock(Length(h), k);
      }
      var n := ReadAt(disk, buf, at, 128, 128 * k, mode);
      forall p | 128 * k <= p < 128 * k + 128 && p < Length(h)
        ensures buf[at + (p - 128 * k)] == FileByte(disk.sectors, h, mode, p)
      {
        ContentByte(disk.sectors, h, mode, p);
        var q := at + (p - 128 * k);
        assert buf[q] == Content(disk.sectors, h, mode)[128 * k + (q - at)];
      }
    }

    /** The sectors that a request modifies only partly are first read into its buffer. */
    method ReadEnds(disk: SynchDisk, buf: array<byte>, position: nat, n: nat, firstSector: nat, lastSector: nat,
                    mode: int)
      requires WellFormed(disk.sectors, hdr.AsWords(), mode) && 0 < n && position + n <= Length(hdr.AsWords())
      requires 128 * firstSector <= position < 128 * firstSector + 128
      requires 128 * lastSector < position + n <= 128 * lastSector + 128
      requires buf.Length == 128 * (1 + lastSector - firstSector)
      modifies buf
      ensures forall p :: 128 * firstSector <= p < 128 * lastSector + 128 && p < Length(hdr.AsWords())
                          && !(position <= p < position + n) ==>
                buf[p - 128 * firstSector] == FileByte(disk.sectors, hdr.AsWords(), mode, p)
    {
      hide WellFormed, FileByte;
      var firstAligned := position == 128 * firstSector;
      var lastAligned := position + n == 128 * (lastSector + 1);
      if !firstAligned {
        ReadBlock(disk, buf, 0, firstSector, mode);
      }
      if !lastAligned && (firstSector != lastSector || firstAligned) {
        ReadBlock(disk, buf, 128 * (lastSector - firstSector), lastSector, mode);
      }
    }

    /** The buffer, which starts at block firstSector, is written back sector by sector. */
    method WriteSectors(disk: SynchDisk, buf: array<byte>, firstSector: nat, lastSector: nat, mode: int)
      requires WellFormed(disk.sectors, hdr.AsWords(), mode) && firstSector <= lastSector < hdr.AsWords()[1]
      requires buf.Length == (1 + lastSector - firstSector) * 128
      modifies disk
      ensures WrittenUpTo(old(disk.sectors), disk.sectors, hdr.AsWords(), mode, buf[..], firstSector, lastSector + 1)
    {
      hide *;
      ghost var img, h, bytes := disk.sectors, hdr.AsWords(), buf[..];
      WriteStart(img, h, mode, bytes, firstSector);
      var i := firstSector;
      while i <= lastSector
        invariant firstSector <= i <= lastSector + 1
        invariant WrittenUpTo(img, disk.sectors, h, mode, bytes, firstSector, i)
      {
        ghost var cur := disk.sectors;
        MapNow(img, cur, h, mode, bytes, firstSector, i);
        BlockAt(img, h, mode, i);
        assert i * 128 / 128 == i;
        var sector := hdr.ByteToSector(disk, i * 128, mode);
        var data := GetSector(buf, (i - firstSector) * 128);
        disk.WriteSector(sector, data);
        WriteStep(img, cur, h, mode, bytes, firstSector, i, data, disk.sectors);
        i := i + 1;
      }
    }

    method WriteAt(disk: SynchDisk, from: array<byte>, numBytes: int, position: int, mode: int) returns (result: int)
      requires 0 <= position && position + numBytes < 0x8000_0000
      requires WellFormed(disk.sectors, hdr.AsWords(), mode)
      requires Clip(Length(hdr.AsWords()), position, numBytes) <= from.Length
      modifies disk
      ensures result == Clip(Length(hdr.AsWords()), position, numBytes)
      ensures ChangedOnly(old(disk.sectors), disk.sectors,
                old(Blocks(disk.sectors, hdr.AsWords(), mode, hdr.AsWords()[1])))
      ensures Claims(disk.sectors, hdr.AsWords(), mode) == old(Claims(disk.sectors, hdr.AsWords(), mode))
      ensures Content(disk.sectors, hdr.AsWords(), mode)
           == Splice(old(Content(disk.sectors, hdr.AsWords(), mode)), position, from[..result])
    {
      hide WellFormed, Content, SectorOf, Words, FileByte, Blocks, Claims, Splice, WrittenUpTo, SectorCount, IndexCount;
      ghost var img, h := disk.sectors, hdr.AsWords();
      BlockFacts(img, h, mode);
      var fileLength := hdr.FileLength();
      if numBytes <= 0 || position >= fileLength {
        NothingWritten(Content(img, h, mode), position, from[..0]);
        return 0;
      }
      result := if position + numBytes > fileLength then fileLength - position else numBytes;
      var firstSector := position / 128;
      var lastSector := (position + result - 1) / 128;
      var buf := new byte[(1 + lastSector - firstSector) * 128];
      ReadEnds(disk, buf, position, result, firstSector, lastSector, mode);
      BCopy(from, 0, buf, position - firstSector * 128, result);
      WriteSectors(disk, buf, firstSector, lastSector, mode);
      assert BufferReady(img, h, mode, buf[..], firstSector, position, from[..result]);
      WriteEnd(img, disk.sectors, h, mode, buf[..], firstSector, lastSector, position, from[..result]);
    }

    method Read(disk: SynchDisk, into: array<byte>, numBytes: int) returns (result: int)
      requires 0 <= seekPosition && seekPosition + numBytes < 0x8000_0000
      requires Legible(disk.sectors, hdr.AsWords(), 1, seekPosition, numBytes)
      requires Clip(Length(hdr.AsWords()), seekPosition, numBytes) <= into.Length
      modifies this, into
      ensures result == Clip(Length(hdr.AsWords()), old(seekPosition), numBytes)
      ensures forall k :: 0 <= k < result ==> into[k] == Content(disk.sectors, hdr.AsWords(), 1)[old(seekPosition) + k]
      ensures seekPosition == old(seekPosition) + result
    {
      hide *;
      result := ReadAt(disk, into, 0, numBytes, seekPosition, 1);
      seekPosition := seekPosition + result;
    }

    method Write(disk: SynchDisk, from: array<byte>, numBytes: int) returns (result: int)
      requires 0 <= seekPosition && seekPosition + numBytes < 0x8000_0000
      requires WellFormed(disk.sectors, hdr.AsWords(), 1)
      requires Clip(Length(hdr.AsWords()), seekPosition, numBytes) <= from.Length
      modifies this, disk
      ensures result == Clip(Length(hdr.AsWords()), old(seekPosition), numBytes)
      ensures ChangedOnly(old(disk.sectors), disk.sectors,
                old(Blocks(disk.sectors, hdr.AsWords(), 1, hdr.AsWords()[1])))
      ensures Claims(disk.sectors, hdr.AsWords(), 1) == old(Claims(disk.sectors, hdr.AsWords(), 1))
      ensures Content(disk.sectors, hdr.AsWords(), 1)
           == Splice(old(Content(disk.sectors, hdr.AsWords(), 1)), old(seekPosition), from[..result])
      ensures seekPosition == old(seekPosition) + result
    {
      hide *;
      result := WriteAt(disk, from, numBytes, seekPosition, 1);
      seekPosition := seekPosition + result;
    }
  }

  /** What an object becomes when a file is fetched into it: the file's bytes, and where it is too short, its own. */
  function Overlaid(bytes: seq<byte>, content: seq<byte>): (r: seq<byte>)
    ensures |r| == |bytes|
    ensures |content| == |bytes| ==> r == content
  {
    seq(|bytes|, q requires 0 <= q < |bytes| => if q < |content| then content[q] else bytes[q])
  }

  /** ReadAt((char *)object, size, 0, 0): an object fetched from a directly mapped file. */
  method FetchObject(disk: SynchDisk, file: OpenFile, before: seq<byte>) returns (bytes: seq<byte>)
    requires |before| < 0x8000_0000 && Legible(disk.sectors, file.hdr.AsWords(), 0, 0, |before|)
    ensures bytes == Overlaid(before, Content(disk.sectors, file.hdr.AsWords(), 0))
  {
    hide Legible, Content;
    var buf := new byte[|before|](i requires 0 <= i < |before| => before[i]);
    var n := file.ReadAt(disk, buf, 0, |before|, 0, 0);
    bytes := buf[..];
  }

  /** WriteAt((char *)object, size, 0, 0). */
  method StoreObject(disk: SynchDisk, file: OpenFile, bytes: seq<byte>)
    requires WellFormed(disk.sectors, file.hdr.AsWords(), 0) && |bytes| < 0x8000_0000
    modifies disk
    ensures ChangedOnly(old(disk.sectors), disk.sectors, old(Claims(disk.sectors, file.hdr.AsWords(), 0)))
    ensures Claims(disk.sectors, file.hdr.AsWords(), 0) == old(Claims(disk.sectors, file.hdr.AsWords(), 0))
    ensures Length(file.hdr.AsWords()) == |bytes| ==> Content(disk.sectors, file.hdr.AsWords(), 0) == bytes
  {
    hide WellFormed, Content, SectorOf, ChangedOnly, Blocks;
    DirectClaims(disk.sectors, file.hdr.AsWords());
    var buf := new byte[|bytes|](i requires 0 <= i < |bytes| => bytes[i]);
    var n := file.WriteAt(disk, buf, |bytes|, 0, 0);
    assert n == |bytes| ==> buf[..n] == bytes;
  }

  lemma DirectClaims(img: Image, h: Header)
    requires WellFormed(img, h, 0)
    ensures h[1] >= 0 && Claims(img, h, 0) == Blocks(img, h, 0, h[1])
  {
  }

  /** A file whose blocks are unchanged, and whose index blocks are, reads the same. */
  lemma Untouched(img: Image, cur: Image, h: Header, mode: int)
    requires WellFormed(img, h, mode)
    requires forall x :: x in Claims(img, h, mode) ==> Sec(cur, x) == Sec(img, x)
    ensures Claims(cur, h, mode) == Claims(img, h, mode) && WellFormed(cur, h, mode)
    ensures Content(cur, h, mode) == Content(img, h, mode)
  {
    hide WellFormed, Sec, SectorOf, FileByte, Entries;
    BlockFacts(img, h, mode);
    LengthBound(img, h, mode);
    ClaimsKept(img, cur, h, mode);
    forall p | 0 <= p < Length(h)
      ensures FileByte(cur, h, mode, p) == FileByte(img, h, mode, p)
    {
      var k, r := BlockOf(p);
      BlockListed(img, h, mode, k);
      ByteInBlock(cur, h, mode, k, r);
      ByteInBlock(img, h, mode, k, r);
    }
  }

  /** n bytes of s from p on. */
  function Piece(s: seq<byte>, p: nat, n: nat): seq<byte>
    requires n > 0 ==> p + n <= |s|
  {
    if n == 0 then [] else s[p..p + n]
  }

  lemma PiecesJoin(s: seq<byte>, p: nat, n: nat, m: nat)
    requires n + m > 0 ==> p + n + m <= |s|
    ensures Piece(s, p, n) + Piece(s, p + n, m) == Piece(s, p, n + m)
  {
  }

  /** What successive Reads of the given sizes return, put end to end. */
  function ReadRun(content: seq<byte>, position: nat, sizes: seq<int>): seq<byte>
    decreases |sizes|
  {
    if sizes == [] then [] else
      var n := Clip(|content|, position, sizes[0]);
      Piece(content, position, n) + ReadRun(content, position + n, sizes[1..])
  }

  function Total(sizes: seq<int>): nat {
    if sizes == [] then 0 else (if sizes[0] > 0 then sizes[0] else 0) + Total(sizes[1..])
  }

  /** Reads of any sizes reassemble the file: together they return what one Read of their total would. */
  lemma {:induction false} ReadsReassemble(content: seq<byte>, position: nat, sizes: seq<int>)
    ensures ReadRun(content, position, sizes)
         == Piece(content, position, Clip(|content|, position, Total(sizes)))
    decreases |sizes|
  {
    hide Piece, Clip;
    if sizes != [] {
      var n := Clip(|content|, position, sizes[0]);
      var m := Clip(|content|, position + n, Total(sizes[1..]));
      ReadsReassemble(content, position + n, sizes[1..]);
      ClipSum(|content|, position, sizes[0], Total(sizes[1..]));
      PiecesJoin(content, position, n, m);
    } else {
      NothingMore(content, position);
    }
  }

  lemma ClipSum(length: nat, position: nat, a: int, b: nat)
    ensures Clip(length, position, (if a > 0 then a else 0) + b)
         == Clip(length, position, a) + Clip(length, position + Clip(length, position, a), b)
  {
  }

  /** The file after successive Writes of the given pieces. */
  function WriteRun(content: seq<byte>, position: nat, pieces: seq<seq<byte>>): (r: seq<byte>)
    ensures |r| == |content|
    decreases |pieces|
  {
    if pieces == [] then content else
      var n := Clip(|content|, position, |pieces[0]|);
      WriteRun(Splice(content, position, pieces[0][..n]), position + n, pieces[1..])
  }

  function Joined(pieces: seq<seq<byte>>): seq<byte> {
    if pieces == [] then [] else pieces[0] + Joined(pieces[1..])
  }

  /** However data is cut into Writes, the file ends as after one Write of the whole. */
  lemma {:induction false} WritesReassemble(content: seq<byte>, position: nat, pieces: seq<seq<byte>>)
    ensures WriteRun(content, position, pieces)
         == Splice(content, position, Joined(pieces)[..Clip(|content|, position, |Joined(pieces)|)])
    decreases |pieces|
  {
    if pieces != [] {
      var n := Clip(|content|, position, |pieces[0]|);
      WritesReassemble(Splice(content, position, pieces[0][..n]), position + n, pieces[1..]);
    }
  }

  lemma ReadRunStep(content: seq<byte>, position: nat, sizes: seq<int>, k: nat, n: nat)
    requires k < |sizes| && n == Clip(|content|, position, sizes[k])
    ensures ReadRun(content, position, sizes[k..])
         == Piece(content, position, n) + ReadRun(content, position + n, sizes[k + 1..])
  {
    assert sizes[k..][1..] == sizes[k + 1..];
  }

  lemma TotalStep(sizes: seq<int>, k: nat)
    requires k < |sizes|
    ensures Total(sizes[k..]) == (if sizes[k] > 0 then sizes[k] else 0) + Total(sizes[k + 1..])
  {
    assert sizes[k..][1..] == sizes[k + 1..];
  }

  /** A program that reads a file piece by piece. */
  method ReadPieces(disk: SynchDisk, file: OpenFile, sizes: seq<int>) returns (data: seq<byte>)
    requires 0 <= file.seekPosition && file.seekPosition + Total(sizes) < 0x8000_0000
    requires WellFormed(disk.sectors, file.hdr.AsWords(), 1)
    modifies file
    ensures var content, p := Content(disk.sectors, file.hdr.AsWords(), 1), old(file.seekPosition);
            var n := Clip(|content|, p, Total(sizes));
            file.seekPosition == p + n && data == Piece(content, p, n)
  {
    hide WellFormed, Legible, Content, Clip, ReadRun, Total;
    data := [];
    ghost var content, p := Content(disk.sectors, file.hdr.AsWords(), 1), file.seekPosition;
    assert sizes[0..] == sizes;
    for k := 0 to |sizes|
      invariant file.seekPosition >= 0 && file.seekPosition + Total(sizes[k..]) < 0x8000_0000
      invariant ReadRun(content, p, sizes) == data + ReadRun(content, file.seekPosition, sizes[k..])
      invariant Clip(|content|, p, Total(sizes))
           == file.seekPosition - p + Clip(|content|, file.seekPosition, Total(sizes[k..]))
    {
      TotalStep(sizes, k);
      ClipSum(|content|, file.seekPosition, sizes[k], Total(sizes[k + 1..]));
      ClipAtMost(|content|, file.seekPosition, sizes[k]);
      ghost var before := file.seekPosition;
      WellFormedIsLegible(disk.sectors, file.hdr.AsWords(), 1, before, sizes[k]);
      var into := new byte[if sizes[k] > 0 then sizes[k] else 0];
      var n := file.Read(disk, into, sizes[k]);
      ReadRunStep(content, before, sizes, k, n);
      assert into[..n] == Piece(content, before, n);
      data := data + into[..n];
    }
    assert sizes[|sizes|..] == [];
    NothingMore(content, file.seekPosition);
    ReadsReassemble(content, p, sizes);
  }

  lemma ClipAtMost(length: nat, position: nat, numBytes: int)
    ensures Clip(length, position, numBytes) <= if numBytes > 0 then numBytes else 0
  {
  }

  lemma NothingMore(content: seq<byte>, position: nat)
    ensures Total([]) == 0 && ReadRun(content, position, []) == [] && Clip(|content|, position, 0) == 0
    ensures Piece(content, position, 0) == []
    ensures WriteRun(content, position, []) == content && Joined([]) == []
  {
  }

  lemma WriteRunUnfolds(content: seq<byte>, position: nat, pieces: seq<seq<byte>>, piece: seq<byte>,
                        rest: seq<seq<byte>>, n: nat)
    requires pieces != [] && piece == pieces[0] && rest == pieces[1..] && n == Clip(|content|, position, |piece|)
    ensures n <= |piece| && (piece[..n] == [] || position + n <= |content|)
    ensures WriteRun(content, position, pieces) == WriteRun(Splice(content, position, piece[..n]), position + n, rest)
  {
    hide Splice;
  }

  lemma WriteRunStep(content: seq<byte>, position: nat, pieces: seq<seq<byte>>, k: nat, n: nat)
    requires k < |pieces| && n == Clip(|content|, position, |pieces[k]|)
    ensures n <= |pieces[k]| && (pieces[k][..n] == [] || position + n <= |content|)
    ensures WriteRun(content, position, pieces[k..])
         == WriteRun(Splice(content, position, pieces[k][..n]), position + n, pieces[k + 1..])
  {
    hide Clip, Splice, WriteRun;
    assert pieces[k..][1..] == pieces[k + 1..];
    WriteRunUnfolds(content, position, pieces[k..], pieces[k], pieces[k + 1..], n);
  }

  lemma JoinedStep(pieces: seq<seq<byte>>, k: nat)
    requires k < |pieces|
    ensures |Joined(pieces[k..])| == |pieces[k]| + |Joined(pieces[k + 1..])|
  {
    assert pieces[k..][1..] == pieces[k + 1..];
  }

  /** A program that writes a file piece by piece: the file ends as after one Write of the whole. */
  method WritePieces(disk: SynchDisk, file: OpenFile, pieces: seq<seq<byte>>)
    requires 0 <= file.seekPosition && file.seekPosition + |Joined(pieces)| < 0x8000_0000
    requires WellFormed(disk.sectors, file.hdr.AsWords(), 1)
    modifies disk, file
    ensures WellFormed(disk.sectors, file.hdr.AsWords(), 1)
    ensures Content(disk.sectors, file.hdr.AsWords(), 1)
         == PiecesWritten(old(Content(disk.sectors, file.hdr.AsWords(), 1)), old(file.seekPosition), Joined(pieces))
  {
    hide WellFormed, Content, Clip, WriteRun, Joined, Claims, Splice, ChangedOnly, Blocks;
    ghost var content, p := Content(disk.sectors, file.hdr.AsWords(), 1), file.seekPosition;
    assert pieces[0..] == pieces;
    for k := 0 to |pieces|
      invariant file.seekPosition >= 0 && file.seekPosition + |Joined(pieces[k..])| < 0x8000_0000
      invariant WellFormed(disk.sectors, file.hdr.AsWords(), 1)
      invariant WriteRun(content, p, pieces)
           == WriteRun(Content(disk.sectors, file.hdr.AsWords(), 1), file.seekPosition, pieces[k..])
    {
      ghost var img, h := disk.sectors, file.hdr.AsWords();
      WriteRunStep(Content(img, h, 1), file.seekPosition, pieces, k, Clip(Length(h), file.seekPosition, |pieces[k]|));
      JoinedStep(pieces, k);
      var piece := pieces[k];
      var from := new byte[|piece|](i requires 0 <= i < |piece| => piece[i]);
      assert from[..] == piece;
      var n := file.Write(disk, from, |piece|);
      StillWellFormed(img, disk.sectors, h, 1);
    }
    assert pieces[|pieces|..] == [];
    NothingMore(Content(disk.sectors, file.hdr.AsWords(), 1), file.seekPosition);
    WritesReassemble(content, p, pieces);
  }

  /** The file after data is written at position, as far as it is long. */
  function PiecesWritten(content: seq<byte>, position: nat, data: seq<byte>): seq<byte> {
    Splice(content, position, data[..Clip(|content|, position, |data|)])
  }

  lemma StillWellFormed(img: Image, cur: Image, h: Header, mode: int)
    requires WellFormed(img, h, mode) && Claims(cur, h, mode) == Claims(img, h, mode)
    ensures WellFormed(cur, h, mode)
  {
  }
}
