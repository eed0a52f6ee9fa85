/** The synchronous disk as any number of threads and the disk's interrupts take their steps, in any order:
    lock->Acquire, the request, semaphore->P, lock->Release, and, at any moment while the disk is active,
        its interrupt. */
module SynchDiskProtocol {
  import opened Storage
  import opened Locks

  datatype Request = Read(sector: int) | Write(sector: int, data: Sector)

  /** A request as the disk carried it out, with the data a read copied. */
  datatype Event = Event(request: Request, result: Sector)

  /** Where a thread stands in ReadSector or WriteSector. start is how many requests had been carried out when
      it entered, at the place of its own. */
  datatype Control =
    | Outside
    | Locked(request: Request, start: nat)
    | Waiting(request: Request, start: nat, at: nat)
    | Woken(request: Request, start: nat, at: nat)

  /** A call that has returned; end counts the requests carried out by then. */
  datatype Call = Call(request: Request, start: nat, at: nat, end: nat)

  datatype State = State(
    initial: Image, platter: Image, active: bool,
    holder: Lock, semaphore: nat, control: map<int, Control>,
    log: seq<Event>, returned: seq<Call>, failed: bool)

  predicate Init(s: State) {
    && s.platter == s.initial && !s.active && s.holder == Free && s.semaphore == 0
    && (forall t :: t in s.control ==> s.control[t] == Outside)
    && s.log == [] && s.returned == [] && !s.failed
  }

  /** lock->Acquire returns: nobody held the lock. */
  predicate Acquire(s: State, s2: State, t: int, request: Request) {
    && t in s.control && s.control[t].Outside? && s.holder == Free && OnDisk(request.sector)
    && s2 == s.(holder := HeldBy(t), control := s.control[t := Locked(request, |s.log|)])
  }

  /** disk->ReadRequest or WriteRequest: its assertion fails if the disk is active already. */
  predicate Ask(s: State, s2: State, t: int) {
    && t in s.control && s.control[t].Locked?
    && var request := s.control[t].request;
       if s.active then s2 == s.(failed := true)
       else
         && OnDisk(request.sector)
         && var event := Event(request, if request.Read? then s.platter[request.sector] else request.data);
            s2 == s.(platter := Served(s.platter, event), active := true, log := s.log + [event],
                     control := s.control[t := Waiting(request, s.control[t].start, |s.log|)])
  }

  /** HandleInterrupt and RequestDone: semaphore->V. */
  predicate Interrupt(s: State, s2: State) {
    s.active && s2 == s.(active := false, semaphore := s.semaphore + 1)
  }

  /** semaphore->P returns. */
  predicate Wake(s: State, s2: State, t: int) {
    && t in s.control && s.control[t].Waiting? && s.semaphore > 0
    && s2 == s.(semaphore := s.semaphore - 1,
       control := s.control[t := Woken(s.control[t].request, s.control[t].start, s.control[t].at)])
  }

  /** lock->Release, and the call returns. */
  predicate Release(s: State, s2: State, t: int) {
    && t in s.control && s.control[t].Woken?
    && var c := s.control[t];
       s2 == s.(holder := Free, control := s.control[t := Outside],
                returned := s.returned + [Call(c.request, c.start, c.at, |s.log|)])
  }

  datatype Step =
    | AcquireStep(t: int, request: Request)
    | AskStep(t: int)
    | InterruptStep
    | WakeStep(t: int)
    | ReleaseStep(t: int)

  predicate Next(s: State, s2: State, step: Step) {
    match step
    case AcquireStep(t, request) => Acquire(s, s2, t, request)
    case AskStep(t) => Ask(s, s2, t)
    case InterruptStep => Interrupt(s, s2)
    case WakeStep(t) => Wake(s, s2, t)
    case ReleaseStep(t) => Release(s, s2, t)
  }

  function Served(platter: Image, event: Event): Image {
    var r := event.request;
    if r.Write? && OnDisk(r.sector) then platter[r.sector := r.data] else platter
  }

  /** What the last write to sector x among the first n requests left there. */
  function LastWrite(initial: Image, log: seq<Event>, n: nat, x: int): Sector
    requires n <= |log| && OnDisk(x)
    decreases n
  {
    if n == 0 then initial[x]
    else if log[n - 1].request.Write? && log[n - 1].request.sector == x then log[n - 1].request.data
    else LastWrite(initial, log, n - 1, x)
  }

  lemma {:induction false} LastWriteExtends(initial: Image, log: seq<Event>, more: seq<Event>, n: nat, x: int)
    requires n <= |log| && OnDisk(x)
    ensures LastWrite(initial, log + more, n, x) == LastWrite(initial, log, n, x)
    decreases n
  {
    if n > 0 {
      LastWriteExtends(initial, log, more, n - 1, x);
    }
  }

  /** The platter holds the last writes, and every read got the last write before it. */
  ghost predicate LogOk(s: State) {
    && (forall x :: OnDisk(x) ==> s.platter[x] == LastWrite(s.initial, s.log, |s.log|, x))
    && (forall i :: 0 <= i < |s.log| ==> EventOk(s, i))
  }

  ghost predicate EventOk(s: State, i: int)
    requires 0 <= i < |s.log|
  {
    var e := s.log[i];
    && OnDisk(e.request.sector)
    && (e.request.Read? ==> e.result == LastWrite(s.initial, s.log, i, e.request.sector))
  }

  /** Whoever holds the lock is the only one inside, and semaphore and disk agree with how far it is. */
  ghost predicate Exclusive(s: State) {
    && (forall t :: t in s.control && !s.control[t].Outside? ==> s.holder == HeldBy(t))
    && (s.holder.Free? ==> !s.active && s.semaphore == 0)
    && (s.holder.HeldBy? ==>
          && s.holder.t in s.control && !s.control[s.holder.t].Outside?
          && if s.control[s.holder.t].Waiting? then s.semaphore + (if s.active then 1 else 0) == 1
             else !s.active && s.semaphore == 0)
  }

  ghost predicate Placed(s: State, request: Request, start: nat, at: nat, end: nat) {
    start <= at < end <= |s.log| && s.log[at].request == request
  }

  /** Every request was carried out between its call's beginning and its end. */
  ghost predicate Timely(s: State) {
    && (forall t :: t in s.control && s.control[t].Locked? ==>
          s.control[t].start <= |s.log| && OnDisk(s.control[t].request.sector))
    && (forall t :: t in s.control && (s.control[t].Waiting? || s.control[t].Woken?) ==>
          Placed(s, s.control[t].request, s.control[t].start, s.control[t].at, |s.log|))
    && (forall i :: 0 <= i < |s.returned| ==>
          Placed(s, s.returned[i].request, s.returned[i].start, s.returned[i].at, s.returned[i].end))
  }

  ghost predicate Inv(s: State) {
    !s.failed && LogOk(s) && Exclusive(s) && Timely(s)
  }

  lemma LogStep(s: State, event: Event, s2: State)
    requires LogOk(s) && OnDisk(event.request.sector)
    requires event.request.Read? ==> event.result == s.platter[event.request.sector]
    requires s2.initial == s.initial && s2.platter == Served(s.platter, event) && s2.log == s.log + [event]
    ensures LogOk(s2)
  {
    forall x | OnDisk(x)
      ensures s2.platter[x] == LastWrite(s2.initial, s2.log, |s2.log|, x)
    {
      LastWriteExtends(s.initial, s.log, [event], |s.log|, x);
    }
    forall i | 0 <= i < |s2.log|
      ensures EventOk(s2, i)
    {
      if i < |s.log| {
        assert EventOk(s, i);
      }
      LastWriteExtends(s.initial, s.log, [event], i, s2.log[i].request.sector);
    }
  }

  /** Every step keeps the invariant; in particular no thread ever asks an active disk. */
  lemma StepKeepsInv(s: State, s2: State, step: Step)
    requires Inv(s) && Next(s, s2, step)
    ensures Inv(s2)
  {
    hide LastWrite, Served, LogOk;
    if step.AskStep? {
      var t := step.t;
      LogStep(s, s2.log[|s.log|], s2);
    } else {
      SameLog(s, s2);
    }
  }

  lemma SameLog(s: State, s2: State)
    requires LogOk(s) && s2.initial == s.initial && s2.platter == s.platter && s2.log == s.log
    ensures LogOk(s2)
  {
    hide LastWrite;
    forall i | 0 <= i < |s2.log|
      ensures EventOk(s2, i)
    {
      assert EventOk(s, i);
    }
  }

  lemma InitInv(s: State)
    requires Init(s)
    ensures Inv(s)
  {
  }

  ghost predicate IsRun(states: seq<State>, steps: seq<Step>) {
    && |states| == |steps| + 1 && Init(states[0])
    && forall i :: 0 <= i < |steps| ==> Next(states[i], states[i + 1], steps[i])
  }

  /** Safety over whole runs: under every interleaving, "only one request at a time" never fails, disk and semaphore
      account for exactly the waiting threads, of which there is at most one, and every read that has been
      carried out returned the latest earlier write to its sector. */
  lemma {:induction false} EveryRunIsSafe(states: seq<State>, steps: seq<Step>)
    requires IsRun(states, steps)
    ensures var s := states[|steps|];
            && !s.failed
            && |WaitingThreads(s)| == s.semaphore + (if s.active then 1 else 0) <= 1
            && (forall i :: 0 <= i < |s.returned| ==> ReturnedRight(s, s.returned[i]))
    ensures Inv(states[|steps|])
    decreases |steps|
  {
    var n := |steps|;
    if n == 0 {
      InitInv(states[0]);
    } else {
      EveryRunIsSafe(states[..n], steps[..n - 1]);
      StepKeepsInv(states[n - 1], states[n], steps[n - 1]);
    }
    InvCounts(states[n]);
  }

  function WaitingThreads(s: State): set<int> {
    set t | t in s.control && s.control[t].Waiting?
  }

  /** A call that has returned was carried out while it ran, and, if a read, got the latest earlier write. */
  ghost predicate ReturnedRight(s: State, c: Call) {
    && Placed(s, c.request, c.start, c.at, c.end)
    && OnDisk(c.request.sector)
    && (c.request.Read? ==> s.log[c.at].result == LastWrite(s.initial, s.log, c.at, c.request.sector))
  }

  lemma Singleton(w: set<int>, x: int)
    requires x in w && forall y :: y in w ==> y == x
    ensures |w| == 1
  {
    assert forall y :: y in w <==> y in {x};
    assert w == {x};
  }

  lemma InvCounts(s: State)
    requires Inv(s)
    ensures |WaitingThreads(s)| == s.semaphore + (if s.active then 1 else 0) <= 1
    ensures forall i :: 0 <= i < |s.returned| ==> ReturnedRight(s, s.returned[i])
  {
    hide LastWrite;
    if s.holder.HeldBy? && s.control[s.holder.t].Waiting? {
      assert s.holder.t in WaitingThreads(s) && forall t :: t in WaitingThreads(s) ==> t == s.holder.t;
      Singleton(WaitingThreads(s), s.holder.t);
    } else {
      assert forall t :: t !in WaitingThreads(s);
      assert WaitingThreads(s) == {};
    }
    forall i | 0 <= i < |s.returned|
      ensures ReturnedRight(s, s.returned[i])
    {
      assert EventOk(s, s.returned[i].at);
    }
  }

  /** Calls that do not overlap are carried out in the order they were made. */
  lemma CallsKeepOrder(s: State, i: nat, j: nat)
    requires Inv(s) && i < |s.returned| && j < |s.returned| && s.returned[i].end <= s.returned[j].start
    ensures s.returned[i].at < s.returned[j].at
  {
  }

  /** How many steps the call under way still takes. */
  function Remaining(s: State): nat {
    if exists t :: t in s.control && s.control[t].Locked? then 4
    else if exists t :: t in s.control && s.control[t].Waiting? then (if s.active then 3 else 2)
    else if exists t :: t in s.control && s.control[t].Woken? then 1
    else 0
  }

  /** No wake-up is lost: as long as a call is under way, some step other than an Acquire can be taken. */
  lemma NeverStuck(s: State)
    requires Inv(s) && Remaining(s) > 0
    ensures exists s2, step :: Next(s, s2, step) && !step.AcquireStep?
  {
    hide LogOk;
    if t :| t in s.control && s.control[t].Locked? {
      var request := s.control[t].request;
      var event := Event(request, if request.Read? then s.platter[request.sector] else request.data);
      var s2 := s.(platter := Served(s.platter, event), active := true, log := s.log + [event],
                   control := s.control[t := Waiting(request, s.control[t].start, |s.log|)]);
      assert Next(s, s2, AskStep(t));
    } else if t :| t in s.control && s.control[t].Waiting? {
      if s.active {
        assert Next(s, s.(active := false, semaphore := s.semaphore + 1), InterruptStep);
      } else {
        var s2 := s.(semaphore := s.semaphore - 1,
            control := s.control[t := Woken(s.control[t].request, s.control[t].start, s.control[t].at)]);
        assert Next(s, s2, WakeStep(t));
      }
    } else {
      var t :| t in s.control && s.control[t].Woken?;
      var c := s.control[t];
      var s2 := s.(holder := Free, control := s.control[t := Outside],
                   returned := s.returned + [Call(c.request, c.start, c.at, |s.log|)]);
      assert Next(s, s2, ReleaseStep(t));
    }
  }

  /** Each such step brings the call one step nearer its end, so it ends after at most four. */
  lemma StepsRunOut(s: State, s2: State, step: Step)
    requires Inv(s) && Next(s, s2, step) && !step.AcquireStep?
    ensures Remaining(s) > 0 && Remaining(s2) == Remaining(s) - 1
  {
    hide LogOk;
    StepKeepsInv(s, s2, step);
    if step.InterruptStep? {
      assert s.control[s.holder.t].Waiting? && s2.control[s.holder.t].Waiting?;
    }
  }
}
