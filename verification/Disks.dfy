/** The simulated disk: how long a request takes as the head moves over turning tracks. */
module Disks {
  import opened Bytes
  import opened Storage
  import opened Interrupts

  const ROTATION_TIME := 500

  /** TimeToSeek's result: the time to reach the track of the new sector. */
  function SeekTime(lastSector: nat, newSector: nat): (seek: nat)
    ensures lastSector < 1024 && newSector < 1024 ==> seek <= 15500
    ensures seek == 0 <==> newSector / 32 == lastSector / 32
  {
    Abs(newSector / 32 - lastSector / 32) * 500
  }

  /** The tracks from a up to b, b not included. */
  function Tracks(a: nat, b: nat): (s: set<nat>)
    requires a <= b
    ensures |s| == b - a && forall t :: t in s <==> a <= t < b
    decreases b - a
  {
    if a == b then {} else Tracks(a, b - 1) + {b - 1}
  }

  /** The tracks that the head comes to on its way from one sector to another: all from there to here but the one it
      starts on. */
  function Crossed(lastSector: nat, newSector: nat): (tracks: set<nat>)
    ensures forall t :: t in tracks <==> lastSector / 32 < t <= newSector / 32 || newSector / 32 <= t < lastSector / 32
  {
    var from, to := lastSector / 32, newSector / 32;
    if from <= to then Tracks(from + 1, to + 1) else Tracks(to, from)
  }

  /** A seek takes 500 ticks for every track crossed. */
  lemma SeekLaw(lastSector: nat, newSector: nat)
    ensures SeekTime(lastSector, newSector) == 500 * |Crossed(lastSector, newSector)|
  {
  }

  /** It takes as long there as back, 500 to a neighbouring track, and no longer for a stop on the way. */
  lemma SeeksAddUp(a: nat, b: nat, c: nat)
    ensures SeekTime(a, b) == SeekTime(b, a)
    ensures a / 32 + 1 == b / 32 ==> SeekTime(a, b) == 500
    ensures a / 32 <= b / 32 <= c / 32 ==> SeekTime(a, c) == SeekTime(a, b) + SeekTime(b, c)
  {
  }

  /** TimeToSeek's second result: from the end of the seek to the next sector boundary. */
  function ToBoundary(now: nat, seek: nat): (rotation: nat)
    ensures rotation < 500 && (now + seek + rotation) % 500 == 0
  {
    var over := (now + seek) % 500;
    if over > 0 then 500 - over else 0
  }

  /** The slot that begins at time 500 * slot is one in which the sector passes under the head. */
  predicate SlotOf(slot: nat, sector: nat) {
    slot % 32 == sector % 32
  }

  /** How many slots after `from` the slot of sector `to` comes up, going round the track. */
  function ModuloDiff(to: nat, from: nat): (d: nat)
    ensures d < 32 && SlotOf(from + d, to)
    ensures forall slot: nat :: slot >= from && SlotOf(slot, to) ==> from + d <= slot
  {
    (to % 32 - from % 32 + 32) % 32
  }

  /** The track buffer, started at bufferInit, is taken to hold the sector. */
  predicate BufferHit(now: nat, lastSector: nat, bufferInit: nat, newSector: nat, writing: bool) {
    var seek := SeekTime(lastSector, newSector);
    var timeAfter := now + seek + ToBoundary(now, seek);
    !writing && seek == 0 && TruncDiv(timeAfter - bufferInit, 500) > ModuloDiff(newSector, bufferInit / 500)
  }

  /** ComputeLatency. */
  function Latency(now: nat, lastSector: nat, bufferInit: nat, newSector: nat, writing: bool): nat {
    var seek := SeekTime(lastSector, newSector);
    var rotation := ToBoundary(now, seek);
    if BufferHit(now, lastSector, bufferInit, newSector, writing) then 500
    else seek + (rotation + ModuloDiff(newSector, (now + seek + rotation) / 500) * 500) + 500
  }

  /** The head can start on the sector at time t: it has had 500 ticks for every track to cross, a slot begins, and it
      is the sector's. */
  predicate CanStart(now: nat, lastSector: nat, newSector: nat, t: nat) {
    t >= now + 500 * |Crossed(lastSector, newSector)| && t % 500 == 0 && t / 500 % 32 == newSector % 32
  }

  /** From the track buffer a transfer takes one slot. Otherwise it starts at the very first moment it can, and takes
      one slot from then. */
  lemma LatencyIsExact(now: nat, lastSector: nat, bufferInit: nat, newSector: nat, writing: bool)
    ensures var latency := Latency(now, lastSector, bufferInit, newSector, writing);
            if BufferHit(now, lastSector, bufferInit, newSector, writing) then latency == 500
            else && latency >= 500
                 && CanStart(now, lastSector, newSector, now + latency - 500)
                 && forall t: nat :: CanStart(now, lastSector, newSector, t) ==> now + latency - 500 <= t
  {
    hide SeekTime, ToBoundary, ModuloDiff, Crossed;
    SeekLaw(lastSector, newSector);
    var seek := SeekTime(lastSector, newSector);
    var q := (now + seek + ToBoundary(now, seek)) / 500;
    var d := ModuloDiff(newSector, q);
    assert now + seek + ToBoundary(now, seek) == 500 * q;
    forall t: nat | CanStart(now, lastSector, newSector, t)
      ensures 500 * (q + d) <= t
    {
      var s := t / 500;
      assert t == 500 * s && s >= q;
    }
  }

  /** The sector has gone right past the head since the buffer was started: some slot of its own began at or after
      bufferInit and was over by the next boundary. */
  ghost predicate PassedHead(now: nat, bufferInit: nat, newSector: nat) {
    exists slot: nat :: SlotOf(slot, newSector) && bufferInit <= 500 * slot
         && 500 * slot + 500 <= now + ToBoundary(now, 0)
  }

  /** The buffer is used exactly for reads of the current track whose sector has fully passed the head. */
  lemma BufferHitsAreRight(now: nat, lastSector: nat, bufferInit: nat, newSector: nat, writing: bool)
    requires bufferInit % 500 == 0 && bufferInit <= now
    ensures BufferHit(now, lastSector, bufferInit, newSector, writing) <==>
            !writing && newSector / 32 == lastSector / 32 && PassedHead(now, bufferInit, newSector)
  {
    hide SeekTime, ToBoundary, ModuloDiff, SlotOf;
    var b, d := bufferInit / 500, ModuloDiff(newSector, bufferInit / 500);
    var e := (now + ToBoundary(now, 0)) / 500;
    assert bufferInit == 500 * b && now + ToBoundary(now, 0) == 500 * e;
    assert SeekTime(lastSector, newSector) == 0 ==>
             (BufferHit(now, lastSector, bufferInit, newSector, writing) <==> !writing && e - b > d);
    if e - b > d {
      assert SlotOf(b + d, newSector);
    }
    if PassedHead(now, bufferInit, newSector) {
      var slot: nat :| SlotOf(slot, newSector) && bufferInit <= 500 * slot
           && 500 * slot + 500 <= now + ToBoundary(now, 0);
      assert slot >= b;
    }
  }

  /** A buffered read is never slower than the same read without a buffer. */
  lemma BufferNeverSlower(now: nat, lastSector: nat, bufferInit: nat, newSector: nat, writing: bool)
    ensures Latency(now, lastSector, bufferInit, newSector, false)
         <= Latency(now, lastSector, bufferInit, newSector, true)
    ensures lastSector < 1024 && newSector < 1024 ==>
              500 <= Latency(now, lastSector, bufferInit, newSector, writing) <= 31999
  {
    hide SeekTime, ToBoundary, ModuloDiff;
  }

  class Disk {
    const interrupt: Interrupt
    var sectors: Image
    var active: bool
    var lastSector: int
    var bufferInit: int
    ghost var doneAt: int

    /** The buffer was started at a slot boundary, and has been running by the time the disk is idle again. */
    ghost predicate Valid()
      reads this, interrupt, interrupt.machine
    {
      && interrupt.Valid() && interrupt.totalTicks >= 0
      && 0 <= lastSector < 1024 && bufferInit >= 0 && bufferInit % 500 == 0
      && (if active then bufferInit <= doneAt else bufferInit <= interrupt.totalTicks)
    }

    constructor (interrupt: Interrupt, image: Image)
      requires interrupt.Valid() && interrupt.totalTicks >= 0
      ensures Valid() && this.interrupt == interrupt && !active && sectors == image
    {
      this.interrupt, sectors := interrupt, image;
      active, lastSector, bufferInit, doneAt := false, 0, 0, 0;
    }

    /** ReadRequest: the data is copied at once, and the interrupt comes when the latency is over. */
    method ReadRequest(sectorNumber: int) returns (data: Sector)
      requires Valid() && !active && OnDisk(sectorNumber)
      modifies this, interrupt
      ensures Valid() && active && data == sectors[sectorNumber] && sectors == old(sectors)
      ensures lastSector == sectorNumber
      ensures interrupt.totalTicks == old(interrupt.totalTicks)
      ensures doneAt == interrupt.totalTicks
           + Latency(interrupt.totalTicks, old(lastSector), old(bufferInit), sectorNumber, false)
      ensures interrupt.pending == old(interrupt.pending) + {PendingInterrupt(old(interrupt.nextId), doneAt, DiskInt)}
    {
      var ticks := ComputeLatency(sectorNumber, false);
      data := sectors[sectorNumber];
      StartRequest(sectorNumber, ticks);
    }

    /** WriteRequest. */
    method WriteRequest(sectorNumber: int, data: Sector)
      requires Valid() && !active && OnDisk(sectorNumber)
      modifies this, interrupt
      ensures Valid() && active && sectors == old(sectors)[sectorNumber := data] && lastSector == sectorNumber
      ensures interrupt.totalTicks == old(interrupt.totalTicks)
      ensures doneAt == interrupt.totalTicks
           + Latency(interrupt.totalTicks, old(lastSector), old(bufferInit), sectorNumber, true)
      ensures interrupt.pending == old(interrupt.pending) + {PendingInterrupt(old(interrupt.nextId), doneAt, DiskInt)}
    {
      var ticks := ComputeLatency(sectorNumber, true);
      sectors := sectors[sectorNumber := data];
      StartRequest(sectorNumber, ticks);
    }

    /** The common end of both requests. */
    method StartRequest(sectorNumber: int, ticks: nat)
      requires Valid() && !active && OnDisk(sectorNumber)
      requires exists writing :: ticks == Latency(interrupt.totalTicks, lastSector, bufferInit, sectorNumber, writing)
      modifies this, interrupt
      ensures Valid() && active && sectors == old(sectors) && lastSector == sectorNumber
      ensures interrupt.totalTicks == old(interrupt.totalTicks) && doneAt == interrupt.totalTicks + ticks
      ensures interrupt.pending == old(interrupt.pending) + {PendingInterrupt(old(interrupt.nextId), doneAt, DiskInt)}
    {
      hide Latency, SeekTime, ToBoundary, ModuloDiff, Interrupt.Valid;
      ghost var writing :| ticks == Latency(interrupt.totalTicks, lastSector, bufferInit, sectorNumber, writing);
      LatencyCoversSeek(interrupt.totalTicks, lastSector, bufferInit, sectorNumber, writing);
      active := true;
      UpdateLast(sectorNumber);
      doneAt := interrupt.totalTicks + ticks;
      interrupt.Schedule(ticks, DiskInt);
    }

    method ComputeLatency(newSector: int, writing: bool) returns (ticks: nat)
      requires Valid() && newSector >= 0
      ensures ticks == Latency(interrupt.totalTicks, lastSector, bufferInit, newSector, writing)
    {
      hide SeekTime, ToBoundary, ModuloDiff;
      var now := interrupt.totalTicks;
      var seek := SeekTime(lastSector, newSector);
      var rotation := ToBoundary(now, seek);
      var timeAfter := now + seek + rotation;
      if !writing && seek == 0 && TruncDiv(timeAfter - bufferInit, ROTATION_TIME)
           > ModuloDiff(newSector, bufferInit / ROTATION_TIME) {
        return ROTATION_TIME;
      }
      rotation := rotation + ModuloDiff(newSector, timeAfter / ROTATION_TIME) * ROTATION_TIME;
      ticks := seek + rotation + ROTATION_TIME;
    }

    /** UpdateLast: a seek discards the track buffer and starts it again on the new track. */
    method UpdateLast(newSector: int)
      requires interrupt.totalTicks >= 0 && 0 <= lastSector && 0 <= newSector
      modifies this`bufferInit, this`lastSector
      ensures lastSector == newSector
      ensures var seek := SeekTime(old(lastSector), newSector);
              bufferInit == if seek != 0 then interrupt.totalTicks + seek + ToBoundary(interrupt.totalTicks, seek)
                   else old(bufferInit)
      ensures var there := interrupt.totalTicks + 500 * |Crossed(old(lastSector), newSector)|;
              if old(lastSector) / 32 == newSector / 32 then bufferInit == old(bufferInit)
              else bufferInit % 500 == 0 && there <= bufferInit < there + 500
    {
      SeekLaw(lastSector, newSector);
      var seek := SeekTime(lastSector, newSector);
      var rotate := ToBoundary(interrupt.totalTicks, seek);
      if seek != 0 {
        bufferInit := interrupt.totalTicks + seek + rotate;
      }
      lastSector := newSector;
    }

    /** HandleInterrupt, up to the caller's own handler: no interrupt comes early, so the clock has reached doneAt. */
    method HandleInterrupt()
      requires Valid() && active && interrupt.totalTicks >= doneAt
      modifies this`active
      ensures Valid() && !active
    {
      active := false;
    }
  }

  /** A request takes at least the time to reach its track and a slot boundary there. */
  lemma LatencyCoversSeek(now: nat, lastSector: nat, bufferInit: nat, newSector: nat, writing: bool)
    ensures var seek := SeekTime(lastSector, newSector);
            && Latency(now, lastSector, bufferInit, newSector, writing) >= 500
            && (seek != 0 ==> Latency(now, lastSector, bufferInit, newSector, writing) >= seek + ToBoundary(now, seek))
  {
  }
}
