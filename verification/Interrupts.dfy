/** The interrupt simulation: simulated time, and the interrupts that are to fire as it passes. */
module Interrupts {
  import MachineSemantics
  import opened Machines

  const SYSTEM_TICK := 10
  const USER_TICK := 1

  datatype IntStatus = IntOff | IntOn

  datatype MachineStatus = IdleMode | SystemMode | UserMode

  datatype IntType = TimerInt | DiskInt | ConsoleWriteInt | ConsoleReadInt | NetworkSendInt | NetworkRecvInt

  /** An interrupt to occur. The id stands for the object's identity: two interrupts may agree in all else. */
  datatype PendingInterrupt = PendingInterrupt(id: nat, when: int, kind: IntType)

  datatype Firing = Firing(what: PendingInterrupt, at: int)

  /** The pending interrupts whose time has come. */
  function Due(pending: set<PendingInterrupt>, now: int): set<PendingInterrupt> {
    set p | p in pending && p.when <= now
  }

  function FiredSet(fired: seq<Firing>): set<PendingInterrupt> {
    set i | 0 <= i < |fired| :: fired[i].what
  }

  /** The case in which the machine, being idle, leaves an interrupt alone: the timer is all there is. */
  predicate OnlyTimer(status: MachineStatus, pending: set<PendingInterrupt>) {
    status == IdleMode && exists p :: p in pending && pending == {p} && p.kind == TimerInt
  }

  /** Where the clock stands when it may advance and nothing fires: at the one pending interrupt, if that lies ahead. */
  ghost function ClockAt(pending: set<PendingInterrupt>, now: int): (t: int)
    ensures forall p :: pending == {p} ==> t == if p.when > now then p.when else now
    ensures pending == {} ==> t == now
  {
    if p :| pending == {p} && p.when > now then p.when else now
  }

  /** No interrupt has fired early or twice; they have fired in the order of their times, and everything still
      pending is due no earlier than what has fired. */
  ghost predicate InOrder(pending: set<PendingInterrupt>, fired: seq<Firing>, now: int) {
    && (forall i :: 0 <= i < |fired| ==> fired[i].what.when <= fired[i].at <= now)
    && (forall i, j :: 0 <= i < j < |fired| ==>
          fired[i].what.when <= fired[j].what.when && fired[i].at <= fired[j].at && fired[i].what != fired[j].what)
    && (forall i, p :: 0 <= i < |fired| && p in pending ==> fired[i].what.when <= p.when && fired[i].what != p)
  }

  /** Firing the earliest pending interrupt, when the clock has reached it, keeps the order. */
  lemma FiringKeepsOrder(pending: set<PendingInterrupt>, fired: seq<Firing>, now: int, p: PendingInterrupt, later: int)
    requires InOrder(pending, fired, now) && p in pending && (forall q :: q in pending ==> p.when <= q.when)
    requires now <= later && p.when <= later
    ensures InOrder(pending - {p}, fired + [Firing(p, later)], later)
    ensures FiredSet(fired + [Firing(p, later)]) == FiredSet(fired) + {p}
  {
    var f := fired + [Firing(p, later)];
    assert f[|fired|] == Firing(p, later);
    forall x | x in FiredSet(fired) + {p}
      ensures x in FiredSet(f)
    {
      if x == p {
        assert f[|fired|].what == x;
      } else {
        var i :| 0 <= i < |fired| && fired[i].what == x;
        assert f[i].what == x;
      }
    }
  }

  lemma FewerDue(a: set<PendingInterrupt>, b: set<PendingInterrupt>, now: int, p: PendingInterrupt)
    requires p in Due(a, now) && forall q :: q in b && q.when <= now ==> q in a && q != p
    ensures |Due(b, now)| < |Due(a, now)|
  {
    SubsetCard(Due(b, now), Due(a, now) - {p});
  }

  lemma {:induction false} SubsetCard(a: set<PendingInterrupt>, b: set<PendingInterrupt>)
    requires a <= b
    ensures |a| <= |b|
  {
    if a != {} {
      var x :| x in a;
      SubsetCard(a - {x}, b - {x});
    }
  }

  lemma {:induction false} HasEarliest(pending: set<PendingInterrupt>)
    requires pending != {}
    ensures exists p :: p in pending && forall q :: q in pending ==> p.when <= q.when
    decreases |pending|
  {
    var x :| x in pending;
    var rest := pending - {x};
    if rest != {} {
      HasEarliest(rest);
      var p :| p in rest && forall q :: q in rest ==> p.when <= q.when;
      var best := if x.when <= p.when then x else p;
      assert best in pending && forall q :: q in pending ==> best.when <= q.when;
    } else {
      assert pending == {x};
    }
  }

  /** A pending load committed twice is committed once. */
  lemma CommitTwice(r: MachineSemantics.Registers)
    requires 0 <= r[37] < 32
    ensures var d := MachineSemantics.DelayedLoad(r, 0, 0);
            d[37] == 0 && MachineSemantics.DelayedLoad(d, 0, 0) == d
  {
  }

  class Interrupt {
    const machine: Machine?
    var level: IntStatus
    var pending: set<PendingInterrupt>
    var inHandler: bool
    var yieldOnReturn: bool
    var status: MachineStatus
    var totalTicks: int
    var systemTicks: int
    var userTicks: int
    var idleTicks: int
    ghost var scheduled: set<PendingInterrupt>
    ghost var fired: seq<Firing>
    // how often a handler has asked for a context switch
    ghost var yieldsAsked: nat
    var nextId: nat

    /** Every interrupt ever scheduled is either pending or has fired, once, not early, in order of time. */
    ghost predicate Valid()
      reads this, machine
    {
      && (machine != null ==> 0 <= machine.registers[37] < 32)
      && InOrder(pending, fired, totalTicks)
      && scheduled == pending + FiredSet(fired)
      && (forall p :: p in scheduled ==> p.id < nextId)
      && totalTicks == systemTicks + userTicks + idleTicks
    }

    ghost function UserMachine(): set<Machine> {
      if machine != null then {machine} else {}
    }

    /** The user machine's registers after an interrupt was or was not fired out of user mode: a pending load does not
        survive one. */
    ghost predicate LoadCommitted(r0: MachineSemantics.Registers, interrupted: bool)
      requires 0 <= r0[37] < 32
      reads this, machine
    {
      machine != null ==> machine.registers == if interrupted then MachineSemantics.DelayedLoad(r0, 0, 0) else r0
    }

    ghost function UserRegisters(): (r: MachineSemantics.Registers)
      requires Valid()
      reads this, machine
      ensures 0 <= r[37] < 32
    {
      if machine != null then machine.registers else seq(40, _ => 0)
    }

    constructor (machine: Machine?)
      requires machine != null ==> machine.Valid()
      ensures this.machine == machine
      ensures Valid() && pending == {} && fired == [] && level == IntOff && !inHandler && status == SystemMode
      ensures !yieldOnReturn && yieldsAsked == 0
    {
      this.machine := machine;
      level, pending, inHandler, yieldOnReturn, status := IntOff, {}, false, false, SystemMode;
      totalTicks, systemTicks, userTicks, idleTicks := 0, 0, 0, 0;
      scheduled, fired, yieldsAsked, nextId := {}, [], 0, 0;
    }

    method ChangeLevel(old': IntStatus, now: IntStatus)
      modifies this`level
      ensures level == now
    {
      level := now;
    }

    /** Schedule: a device asks for an interrupt some time from now. */
    method Schedule(fromNow: int, kind: IntType)
      requires Valid() && fromNow > 0
      modifies this`pending, this`scheduled, this`nextId
      ensures Valid() && nextId == old(nextId) + 1
      ensures pending == old(pending) + {PendingInterrupt(old(nextId), totalTicks + fromNow, kind)}
      ensures scheduled == old(scheduled) + {PendingInterrupt(old(nextId), totalTicks + fromNow, kind)}
    {
      hide FiredSet;
      var toOccur := PendingInterrupt(nextId, totalTicks + fromNow, kind);
      pending := pending + {toOccur};
      scheduled, nextId := scheduled + {toOccur}, nextId + 1;
    }

    method YieldOnReturn()
      requires inHandler
      modifies this`yieldOnReturn, this`yieldsAsked
      ensures yieldOnReturn && yieldsAsked == old(yieldsAsked) + 1
    {
      yieldOnReturn := true;
      yieldsAsked := yieldsAsked + 1;
    }

    /** A context switch will follow if one was to follow before, or if a handler has asked for one since. */
    ghost predicate YieldKept(before: bool, askedBefore: nat)
      reads this
    {
      yieldsAsked >= askedBefore && (yieldOnReturn <==> before || yieldsAsked > askedBefore)
    }

    /** What a device's handler may do here: schedule further interrupts and ask for a context switch. */
    method Handler()
      requires Valid() && inHandler
      modifies this`pending, this`scheduled, this`nextId, this`yieldOnReturn, this`yieldsAsked, this`status
      ensures Valid() && old(pending) <= pending && old(scheduled) <= scheduled
      ensures forall p :: p in pending - old(pending) ==> p.when > totalTicks && p.id >= old(nextId)
      ensures YieldKept(old(yieldOnReturn), old(yieldsAsked))
    {
      hide InOrder, FiredSet;
      var wishes: seq<(int, IntType)> := *;
      for i := 0 to |wishes|
        invariant Valid() && old(pending) <= pending && old(scheduled) <= scheduled && old(nextId) <= nextId
        invariant yieldOnReturn == old(yieldOnReturn) && yieldsAsked == old(yieldsAsked)
        invariant forall p :: p in pending - old(pending) ==> p.when > totalTicks && p.id >= old(nextId)
      {
        if wishes[i].0 > 0 {
          Schedule(wishes[i].0, wishes[i].1);
        }
      }
      var switch: bool := *;
      if switch {
        YieldOnReturn();
      }
      status := *;
    }

    /** pending->SortedRemove: one of the earliest, whichever. */
    method SortedRemove() returns (p: PendingInterrupt)
      requires pending != {}
      modifies this`pending
      ensures p in old(pending) && (forall q :: q in old(pending) ==> p.when <= q.when)
      ensures pending == old(pending) - {p}
    {
      HasEarliest(pending);
      p :| p in pending && forall q :: q in pending ==> p.when <= q.when;
      pending := pending - {p};
    }

    /** CheckIfDue: at most one interrupt fires, the earliest, and only when its time has come. */
    method CheckIfDue(advanceClock: bool) returns (r: bool)
      requires Valid() && level == IntOff && !inHandler
      modifies this, UserMachine()`registers
      ensures Valid() && level == IntOff && !inHandler && status == old(status)
      ensures LoadCommitted(old(UserRegisters()), r && old(status) == UserMode)
      ensures r <==> && old(pending) != {} && !OnlyTimer(old(status), old(pending))
                     && (advanceClock || Due(old(pending), old(totalTicks)) != {})
      ensures r ==> exists p :: FiresFirst(p, old(pending), old(fired), old(totalTicks), advanceClock, pending, fired,
                totalTicks)
      ensures !r ==>
                pending == old(pending) && scheduled == old(scheduled) && fired == old(fired)
                && yieldsAsked == old(yieldsAsked)
      ensures YieldKept(old(yieldOnReturn), old(yieldsAsked))
      ensures !r ==> totalTicks == if advanceClock then ClockAt(old(pending), old(totalTicks)) else old(totalTicks)
      ensures !advanceClock ==> totalTicks == old(totalTicks)
      ensures totalTicks >= old(totalTicks) && systemTicks == old(systemTicks) && userTicks == old(userTicks)
      ensures r && !advanceClock ==> |Due(pending, totalTicks)| < |Due(old(pending), totalTicks)|
    {
      hide InOrder, FiredSet;
      LaterInOrder();
      var old' := status;
      if pending == {} {
        return false;
      }
      var toOccur := SortedRemove();
      assert toOccur in old(pending);
      var when := toOccur.when;
      if advanceClock && when > totalTicks {
        idleTicks := idleTicks + (when - totalTicks);
        totalTicks := when;
      } else if when > totalTicks {
        pending := pending + {toOccur};
        assert pending == old(pending);
        return false;
      }
      if status == IdleMode && toOccur.kind == TimerInt && pending == {} {
        pending := pending + {toOccur};
        assert pending == old(pending) == {toOccur};
        return false;
      }
      assert !OnlyTimer(old(status), old(pending));
      Fire(toOccur, old', old(pending), old(totalTicks), advanceClock);
      r := true;
    }

    /** The end of CheckIfDue: the handler of an interrupt already taken off the list runs. */
    method Fire(toOccur: PendingInterrupt, old': MachineStatus, ghost pending0: set<PendingInterrupt>, ghost now0: int,
                ghost advance: bool)
      requires InOrder(pending0, fired, now0) && scheduled == pending0 + FiredSet(fired)
      requires pending == pending0 - {toOccur}
      requires (forall p :: p in scheduled ==> p.id < nextId) && totalTicks == systemTicks + userTicks + idleTicks
      requires toOccur in pending0 && (forall q :: q in pending0 ==> toOccur.when <= q.when)
      requires toOccur.when <= totalTicks
      requires totalTicks == (if advance && toOccur.when > now0 then toOccur.when else now0)
      requires level == IntOff && !inHandler && status == old'
      requires machine != null ==> 0 <= machine.registers[37] < 32
      modifies this`fired, this`inHandler, this`status, this`pending, this`scheduled, this`nextId, this`yieldOnReturn,
          this`yieldsAsked, UserMachine()`registers
      ensures Valid() && !inHandler && status == old'
      ensures machine != null ==> LoadCommitted(old(machine.registers), old' == UserMode)
      ensures FiresFirst(toOccur, pending0, old(fired), now0, advance, pending, fired, totalTicks)
      ensures YieldKept(old(yieldOnReturn), old(yieldsAsked))
      ensures |Due(pending, totalTicks)| < |Due(pending0, totalTicks)|
    {
      hide InOrder, FiredSet;
      FiringKeepsOrder(pending0, fired, now0, toOccur, totalTicks);
      fired := fired + [Firing(toOccur, totalTicks)];
      if machine != null && status == UserMode {
        machine.DelayedLoad(0, 0);
      }
      inHandler := true;
      status := SystemMode;
      Handler();
      status := old';
      inHandler := false;
      assert toOccur !in pending;
      FewerDue(pending0, pending, totalTicks, toOccur);
    }

    /** Interrupt p was the earliest and has fired, the clock moving up to it if it may; what came in since is
        strictly in the future. */
    static ghost predicate FiresFirst(p: PendingInterrupt, pending0: set<PendingInterrupt>, fired0: seq<Firing>,
                                      now0: int, advance: bool, pending: set<PendingInterrupt>, fired: seq<Firing>,
                                      now: int) {
      && p in pending0 && (forall q :: q in pending0 ==> p.when <= q.when)
      && now == (if advance && p.when > now0 then p.when else now0)
      && fired == fired0 + [Firing(p, now)]
      && pending0 - {p} <= pending && p !in pending
      && forall q :: q in pending && q !in pending0 ==> q.when > now
    }

    /** while (CheckIfDue(FALSE)): it ends, and leaves nothing due but a lone timer in an idle machine. */
    method FireAllDue()
      requires Valid() && level == IntOff && !inHandler
      modifies this, UserMachine()`registers
      ensures Valid() && LoadCommitted(old(UserRegisters()), old(status) == UserMode && fired != old(fired))
      ensures Valid() && level == IntOff && !inHandler && status == old(status)
      ensures totalTicks == old(totalTicks) && systemTicks == old(systemTicks) && userTicks == old(userTicks)
      ensures Due(pending, totalTicks) == {} || OnlyTimer(status, pending)
      ensures old(fired) <= fired && old(Due(pending, totalTicks)) <= Due(pending, totalTicks) + FiredSet(fired)
      ensures forall p :: p in old(pending) && p.when > totalTicks ==> p in pending
      ensures YieldKept(old(yieldOnReturn), old(yieldsAsked))
    {
      hide InOrder, Valid, FiredSet;
      ghost var registers0 := UserRegisters();
      CommitTwice(registers0);
      var more := true;
      while more
        invariant Valid() && level == IntOff && !inHandler && status == old(status)
        invariant LoadCommitted(registers0, old(status) == UserMode && fired != old(fired))
        invariant totalTicks == old(totalTicks) && systemTicks == old(systemTicks) && userTicks == old(userTicks)
        invariant !more ==> Due(pending, totalTicks) == {} || OnlyTimer(status, pending)
        invariant old(fired) <= fired && old(Due(pending, totalTicks)) <= Due(pending, totalTicks) + FiredSet(fired)
        invariant forall p :: p in old(pending) && p.when > totalTicks ==> p in pending
        invariant YieldKept(old(yieldOnReturn), old(yieldsAsked))
        decreases |Due(pending, totalTicks)|, more
      {
        ghost var pending0, fired0 := pending, fired;
        more := CheckIfDue(false);
        if more {
          ghost var p :| FiresFirst(p, pending0, fired0, totalTicks, false, pending, fired, totalTicks);
          FiredGrows(fired0, fired, p);
        }
      }
    }

    static lemma FiredGrows(fired0: seq<Firing>, fired: seq<Firing>, p: PendingInterrupt)
      requires exists now :: fired == fired0 + [Firing(p, now)]
      ensures FiredSet(fired) == FiredSet(fired0) + {p}
    {
      var now :| fired == fired0 + [Firing(p, now)];
      forall x | x in FiredSet(fired0) + {p}
        ensures x in FiredSet(fired)
      {
        if x == p {
          assert fired[|fired0|].what == x;
        } else {
          var i :| 0 <= i < |fired0| && fired0[i].what == x;
          assert fired[i].what == x;
        }
      }
      forall x | x in FiredSet(fired)
        ensures x in FiredSet(fired0) + {p}
      {
        var i :| 0 <= i < |fired| && fired[i].what == x;
        assert i < |fired0| ==> fired0[i].what == x;
      }
    }

    /** Time alone puts nothing out of order. */
    lemma LaterInOrder()
      requires Valid()
      ensures forall t :: t >= totalTicks ==> InOrder(pending, fired, t)
    {
    }

    /** OneTick, up to the context switch it may ask for: time moves, everything that was due has fired, and
        every interrupt still pending is strictly in the future. */
    method OneTick() returns (switch: bool)
      requires Valid() && !inHandler
      modifies this, UserMachine()`registers
      ensures Valid() && LoadCommitted(old(UserRegisters()), old(status) == UserMode && fired != old(fired))
      ensures Valid() && !inHandler && level == IntOn && status == old(status)
      ensures systemTicks == old(systemTicks) + (if old(status) == SystemMode then 10 else 0)
      ensures userTicks == old(userTicks) + (if old(status) == SystemMode then 0 else 1)
      ensures totalTicks == old(totalTicks) + (if old(status) == SystemMode then 10 else 1)
      ensures Due(pending, totalTicks) == {} || OnlyTimer(status, pending)
      ensures old(fired) <= fired && (forall p :: p in old(pending) && p.when > totalTicks ==> p in pending)
      ensures !OnlyTimer(status, pending) ==> Due(old(pending), totalTicks) <= FiredSet(fired)
      ensures !yieldOnReturn && yieldsAsked >= old(yieldsAsked)
      ensures switch <==> old(yieldOnReturn) || yieldsAsked > old(yieldsAsked)
    {
      hide InOrder, FiredSet;
      LaterInOrder();
      if status == SystemMode {
        totalTicks := totalTicks + SYSTEM_TICK;
        systemTicks := systemTicks + SYSTEM_TICK;
      } else {
        totalTicks := totalTicks + USER_TICK;
        userTicks := userTicks + USER_TICK;
      }
      ChangeLevel(IntOn, IntOff);
      FireAllDue();
      ChangeLevel(IntOff, IntOn);
      switch := yieldOnReturn;
      yieldOnReturn := false;
    }

    /** SetLevel: enabling interrupts that were off is what makes time pass in the kernel. */
    method SetLevel(now: IntStatus) returns (previous: IntStatus, switch: bool)
      requires Valid() && (now == IntOff || !inHandler)
      modifies this, UserMachine()`registers
      ensures Valid() && LoadCommitted(old(UserRegisters()), old(status) == UserMode && fired != old(fired))
      ensures Valid() && level == now && previous == old(level) && status == old(status) && inHandler == old(inHandler)
      ensures !(now == IntOn && previous == IntOff) ==>
                totalTicks == old(totalTicks) && pending == old(pending) && fired == old(fired)
                && systemTicks == old(systemTicks) && userTicks == old(userTicks)
                && !switch && yieldOnReturn == old(yieldOnReturn) && yieldsAsked == old(yieldsAsked)
      ensures now == IntOn && previous == IntOff ==>
                && totalTicks == old(totalTicks) + (if old(status) == SystemMode then 10 else 1)
                && systemTicks == old(systemTicks) + (if old(status) == SystemMode then 10 else 0)
                && userTicks == old(userTicks) + (if old(status) == SystemMode then 0 else 1)
                && (switch <==> old(yieldOnReturn) || yieldsAsked > old(yieldsAsked)) && !yieldOnReturn
                && (Due(pending, totalTicks) == {} || OnlyTimer(status, pending))
                && (!OnlyTimer(status, pending) ==> Due(old(pending), totalTicks) <= FiredSet(fired))
    {
      previous, switch := level, false;
      ChangeLevel(previous, now);
      if now == IntOn && previous == IntOff {
        switch := OneTick();
      }
    }

    /** Idle: the clock moves straight to the earliest interrupt. The machine halts exactly when nothing is pending,
        or only the timer; in the second case the clock has moved although nothing fired. */
    method Idle() returns (halted: bool)
      requires Valid() && level == IntOff && !inHandler
      modifies this, UserMachine()`registers
      ensures Valid() && LoadCommitted(old(UserRegisters()), false)
      ensures Valid() && level == IntOff && !inHandler
      ensures systemTicks == old(systemTicks) && userTicks == old(userTicks)
      ensures halted <==> old(pending) == {} || OnlyTimer(IdleMode, old(pending))
      ensures halted ==>
                pending == old(pending) && fired == old(fired)
                && totalTicks == ClockAt(old(pending), old(totalTicks))
      ensures !halted ==> status == SystemMode && !yieldOnReturn && |fired| > |old(fired)| && old(fired) < fired
      ensures !halted ==> Due(pending, totalTicks) == {} || OnlyTimer(IdleMode, pending)
      ensures !halted ==> exists p :: p in old(pending) && (forall q :: q in old(pending) ==> p.when <= q.when)
                                      && totalTicks == if p.when > old(totalTicks) then p.when else old(totalTicks)
    {
      hide InOrder, FiredSet, Due;
      status := IdleMode;
      var any := CheckIfDue(true);
      if any {
        ghost var p :| FiresFirst(p, old(pending), old(fired), old(totalTicks), true, pending, fired, totalTicks);
        FireAllDue();
        yieldOnReturn := false;
        status := SystemMode;
        return false;
      }
      halted := true;
    }
  }
}
