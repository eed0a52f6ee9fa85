/** A post office and its network device, step by step: the one-slot inbox that interrupts fill and the postal
    worker empties, the mailboxes, and the senders that take turns at the device. */
module PostOffices {
  import opened Bytes
  import opened Locks

  datatype Packet = Packet(from: int, box: int, payload: seq<byte>)

  datatype Inbox = Nothing | Holding(packet: Packet)

  /** The postal worker: about to wait, woken but not yet at the inbox, or with a packet in hand. */
  datatype Worker = AtP | Woken | Sorting(packet: Packet)

  /** A thread in PostOffice::Send. */
  datatype Sender = Outside | Locked(packet: Packet) | Waiting | Released

  datatype State = State(
    numBoxes: nat,
    // the network, towards this machine: all that was sent, and which of it is still on its way
    sent: seq<Packet>, socket: seq<Packet>,
    // the receiving half
    inbox: Inbox, messageAvailable: nat, worker: Worker,
    boxes: map<int, seq<Packet>>,
    // the sending half
    sendLock: Lock, sendBusy: bool, messageSent: nat, senders: map<int, Sender>, outgoing: seq<Packet>,
    // what has happened: packets read from the socket and where among those sent they were, packets put into
    // boxes, mail handed out box by box, and whether an assertion has failed
    taken: seq<Packet>, arrived: seq<nat>, put: seq<Packet>, got: map<int, seq<Packet>>, failed: bool)

  ghost predicate Init(s: State) {
    && s.sent == [] && s.socket == [] && s.inbox == Nothing && s.messageAvailable == 0 && s.worker == AtP
    && (forall b :: 0 <= b < s.numBoxes <==> b in s.boxes) && (forall b :: 0 <= b < s.numBoxes <==> b in s.got)
    && (forall b :: b in s.boxes ==> s.boxes[b] == []) && (forall b :: b in s.got ==> s.got[b] == [])
    && s.sendLock == Free && !s.sendBusy && s.messageSent == 0
    && (forall t :: t in s.senders ==> s.senders[t] == Outside) && s.outgoing == []
    && s.taken == [] && s.arrived == [] && s.put == [] && !s.failed
  }

  datatype Step =
    | Transmit(packet: Packet, lost: bool)
    | Poll
    | WorkerWakes
    | WorkerReceives
    | WorkerPuts
    | Get(box: int)
    | SendLocks(t: int, packet: Packet)
    | SendAsks(t: int)
    | SendDone
    | SendWakes(t: int)
    | SendReturns(t: int)

  predicate Enabled(s: State, step: Step) {
    match step
    // a peer sends to this machine; its own Send has checked the box number
    case Transmit(packet, lost) => 0 <= packet.box < s.numBoxes
    case Poll => true
    case WorkerWakes => s.worker.AtP? && s.messageAvailable > 0
    case WorkerReceives => s.worker.Woken?
    case WorkerPuts => s.worker.Sorting?
    case Get(box) => box in s.boxes && box in s.got && s.boxes[box] != []
    case SendLocks(t, packet) => t in s.senders && s.senders[t].Outside? && s.sendLock.Free?
    case SendAsks(t) => t in s.senders && s.senders[t].Locked?
    case SendDone => s.sendBusy
    case SendWakes(t) => t in s.senders && s.senders[t].Waiting? && s.messageSent > 0
    case SendReturns(t) => t in s.senders && s.senders[t].Released?
  }

  function Next(s: State, step: Step): State
    requires Enabled(s, step)
  {
    match step
    case Transmit(packet, lost) =>
      if lost then s.(sent := s.sent + [packet])
      else s.(sent := s.sent + [packet], socket := s.socket + [packet], arrived := s.arrived + [|s.sent|])
    // CheckPktAvail, and the worker's wake-up call if a packet was read
    case Poll =>
      if s.inbox.Holding? || s.socket == [] then s
      else s.(inbox := Holding(s.socket[0]), socket := s.socket[1..], taken := s.taken + [s.socket[0]],
              messageAvailable := s.messageAvailable + 1)
    case WorkerWakes => s.(messageAvailable := s.messageAvailable - 1, worker := Woken)
    // an empty inbox would give the worker a header of length 0 and stale data
    case WorkerReceives =>
      if s.inbox.Nothing? then s.(failed := true) else s.(worker := Sorting(s.inbox.packet), inbox := Nothing)
    case WorkerPuts =>
      var p := s.worker.packet;
      if p.box !in s.boxes then s.(failed := true)
      else s.(boxes := s.boxes[p.box := s.boxes[p.box] + [p]], put := s.put + [p], worker := AtP)
    case Get(box) =>
      s.(boxes := s.boxes[box := s.boxes[box][1..]], got := s.got[box := s.got[box] + [s.boxes[box][0]]])
    case SendLocks(t, packet) => s.(sendLock := HeldBy(t), senders := s.senders[t := Locked(packet)])
    case SendAsks(t) =>
      if s.sendBusy then s.(failed := true)
      else s.(sendBusy := true, outgoing := s.outgoing + [s.senders[t].packet], senders := s.senders[t := Waiting])
    case SendDone => s.(sendBusy := false, messageSent := s.messageSent + 1)
    case SendWakes(t) => s.(messageSent := s.messageSent - 1, senders := s.senders[t := Released])
    case SendReturns(t) => s.(sendLock := Free, senders := s.senders[t := Outside])
  }

  /** The packets meant for one box, in order. */
  function ForBox(ps: seq<Packet>, b: int): (r: seq<Packet>)
    ensures |r| <= |ps|
  {
    if ps == [] then []
    else ForBox(ps[..|ps| - 1], b) + if ps[|ps| - 1].box == b then [ps[|ps| - 1]] else []
  }

  function InHand(w: Worker): seq<Packet> {
    if w.Sorting? then [w.packet] else []
  }

  function InInbox(i: Inbox): seq<Packet> {
    if i.Holding? then [i.packet] else []
  }

  /** The handoff: the semaphore, or a worker already woken, stands for a full inbox, and nothing taken from the
      socket is lost or doubled on its way to the boxes. */
  ghost predicate HandoffOk(messageAvailable: nat, worker: Worker, inbox: Inbox, taken: seq<Packet>, put: seq<Packet>) {
    && messageAvailable + (if worker.Woken? then 1 else 0) == (if inbox.Holding? then 1 else 0)
    && taken == put + InHand(worker) + InInbox(inbox)
  }

  /** What has come off the network, and what is still on it, is a subsequence of what was sent. */
  ghost predicate LinkOk(numBoxes: nat, sent: seq<Packet>, arrived: seq<nat>, here: seq<Packet>) {
    && Embeds(arrived, here, sent)
    && (forall i :: 0 <= i < |sent| ==> 0 <= sent[i].box < numBoxes)
    && (forall i :: 0 <= i < |here| ==> 0 <= here[i].box < numBoxes)
  }

  ghost predicate BoxesOk(numBoxes: nat, boxes: map<int, seq<Packet>>, got: map<int, seq<Packet>>, put: seq<Packet>) {
    && (forall b :: 0 <= b < numBoxes <==> b in boxes) && (forall b :: 0 <= b < numBoxes <==> b in got)
    && (forall b :: 0 <= b < numBoxes ==> got[b] + boxes[b] == ForBox(put, b))
  }

  /** Whoever holds the send lock is alone, and device and semaphore agree with how far it is. */
  ghost predicate SendingOk(sendLock: Lock, sendBusy: bool, messageSent: nat, senders: map<int, Sender>) {
    && (forall t :: t in senders && !senders[t].Outside? ==> sendLock == HeldBy(t))
    && (sendLock.Free? ==> !sendBusy && messageSent == 0)
    && (sendLock.HeldBy? ==>
          && sendLock.t in senders && !senders[sendLock.t].Outside?
          && if senders[sendLock.t].Waiting? then messageSent + (if sendBusy then 1 else 0) == 1
             else !sendBusy && messageSent == 0)
  }

  ghost predicate Inv(s: State) {
    && !s.failed
    && HandoffOk(s.messageAvailable, s.worker, s.inbox, s.taken, s.put)
    && LinkOk(s.numBoxes, s.sent, s.arrived, s.taken + s.socket)
    && BoxesOk(s.numBoxes, s.boxes, s.got, s.put)
    && SendingOk(s.sendLock, s.sendBusy, s.messageSent, s.senders)
  }

  lemma InitInv(s: State)
    requires Init(s)
    ensures Inv(s)
  {
  }

  lemma LinkStep(s: State, step: Step)
    requires Inv(s) && Enabled(s, step)
    ensures var s2 := Next(s, step); LinkOk(s2.numBoxes, s2.sent, s2.arrived, s2.taken + s2.socket)
  {
    hide HandoffOk, BoxesOk, SendingOk, LinkOk;
    var s2 := Next(s, step);
    if step.Transmit? {
      LinkGrows(s.numBoxes, s.sent, s.arrived, s.taken + s.socket, step.packet);
      assert !step.lost ==> s2.taken + s2.socket == (s.taken + s.socket) + [step.packet];
    } else {
      assert s2.taken + s2.socket == s.taken + s.socket;
    }
  }

  lemma LinkGrows(numBoxes: nat, sent: seq<Packet>, arrived: seq<nat>, here: seq<Packet>, p: Packet)
    requires LinkOk(numBoxes, sent, arrived, here) && 0 <= p.box < numBoxes
    ensures LinkOk(numBoxes, sent + [p], arrived, here) && LinkOk(numBoxes, sent + [p], arrived + [|sent|], here + [p])
  {
  }

  lemma HandoffStep(s: State, step: Step)
    requires Inv(s) && Enabled(s, step)
    ensures var s2 := Next(s, step); HandoffOk(s2.messageAvailable, s2.worker, s2.inbox, s2.taken, s2.put)
    ensures !Next(s, step).failed
  {
    hide ForBox, Embeds, HandoffOk, Inv, LinkOk, BoxesOk, SendingOk;
    NothingFails(s, step);
    match step
    case Poll =>
      if s.inbox.Nothing? && s.socket != [] {
        HandoffFills(s.messageAvailable, s.worker, s.taken, s.put, s.socket[0]);
      }
    case WorkerWakes => HandoffWakes(s.messageAvailable, s.inbox, s.taken, s.put);
    case WorkerReceives => HandoffEmpties(s.messageAvailable, s.inbox, s.taken, s.put);
    case WorkerPuts => HandoffPuts(s.messageAvailable, s.worker.packet, s.inbox, s.taken, s.put);
    case _ =>
  }

  lemma NothingFails(s: State, step: Step)
    requires Inv(s) && Enabled(s, step)
    ensures HandoffOk(s.messageAvailable, s.worker, s.inbox, s.taken, s.put) && !s.failed
    ensures step.WorkerReceives? ==> s.inbox.Holding?
    ensures step.WorkerPuts? ==> s.worker.packet.box in s.boxes
    ensures step.SendAsks? ==> !s.sendBusy
  {
    hide ForBox, Embeds;
    if step.WorkerPuts? {
      assert (s.taken + s.socket)[|s.put|] == s.taken[|s.put|] == s.worker.packet;
    }
  }

  lemma HandoffFills(available: nat, worker: Worker, taken: seq<Packet>, put: seq<Packet>, p: Packet)
    requires HandoffOk(available, worker, Nothing, taken, put)
    ensures HandoffOk(available + 1, worker, Holding(p), taken + [p], put)
  {
  }

  lemma HandoffWakes(available: nat, inbox: Inbox, taken: seq<Packet>, put: seq<Packet>)
    requires available > 0 && HandoffOk(available, AtP, inbox, taken, put)
    ensures HandoffOk(available - 1, Woken, inbox, taken, put)
  {
  }

  lemma HandoffEmpties(available: nat, inbox: Inbox, taken: seq<Packet>, put: seq<Packet>)
    requires inbox.Holding? && HandoffOk(available, Woken, inbox, taken, put)
    ensures HandoffOk(available, Sorting(inbox.packet), Nothing, taken, put)
  {
  }

  lemma HandoffPuts(available: nat, p: Packet, inbox: Inbox, taken: seq<Packet>, put: seq<Packet>)
    requires HandoffOk(available, Sorting(p), inbox, taken, put)
    ensures HandoffOk(available, AtP, inbox, taken, put + [p])
  {
  }

  lemma BoxesStep(s: State, step: Step)
    requires Inv(s) && Enabled(s, step) && !Next(s, step).failed
    ensures var s2 := Next(s, step); BoxesOk(s2.numBoxes, s2.boxes, s2.got, s2.put)
  {
    hide HandoffOk, LinkOk, SendingOk, BoxesOk;
    if step.WorkerPuts? {
      BoxPut(s.numBoxes, s.boxes, s.got, s.put, s.worker.packet);
    } else if step.Get? {
      BoxGet(s.numBoxes, s.boxes, s.got, s.put, step.box);
    }
  }

  lemma BoxPut(numBoxes: nat, boxes: map<int, seq<Packet>>, got: map<int, seq<Packet>>, put: seq<Packet>, p: Packet)
    requires BoxesOk(numBoxes, boxes, got, put) && p.box in boxes
    ensures BoxesOk(numBoxes, boxes[p.box := boxes[p.box] + [p]], got, put + [p])
  {
    hide ForBox;
    forall b
      ensures ForBox(put + [p], b) == ForBox(put, b) + if p.box == b then [p] else []
    {
      OneMoreForBox(put, p, b);
    }
  }

  lemma BoxGet(numBoxes: nat, boxes: map<int, seq<Packet>>, got: map<int, seq<Packet>>, put: seq<Packet>, b: int)
    requires BoxesOk(numBoxes, boxes, got, put) && b in boxes && b in got && boxes[b] != []
    ensures BoxesOk(numBoxes, boxes[b := boxes[b][1..]], got[b := got[b] + [boxes[b][0]]], put)
  {
    hide ForBox;
  }

  lemma OneMoreForBox(ps: seq<Packet>, p: Packet, b: int)
    ensures ForBox(ps + [p], b) == ForBox(ps, b) + if p.box == b then [p] else []
  {
    assert (ps + [p])[..|ps|] == ps;
  }

  lemma SendingStep(s: State, step: Step)
    requires Inv(s) && Enabled(s, step) && !Next(s, step).failed
    ensures var s2 := Next(s, step); SendingOk(s2.sendLock, s2.sendBusy, s2.messageSent, s2.senders)
  {
    hide HandoffOk, LinkOk, BoxesOk, SendingOk;
    match step
    case SendLocks(t, packet) =>
      SenderMoves(s.sendLock, s.sendBusy, s.messageSent, s.senders, t, Locked(packet));
    case SendAsks(t) => SenderMoves(s.sendLock, s.sendBusy, s.messageSent, s.senders, t, Waiting);
    case SendDone => DeviceDone(s.sendLock, s.messageSent, s.senders);
    case SendWakes(t) => SenderMoves(s.sendLock, s.sendBusy, s.messageSent, s.senders, t, Released);
    case SendReturns(t) => SenderMoves(s.sendLock, s.sendBusy, s.messageSent, s.senders, t, Outside);
    case _ =>
  }

  /** Thread t goes on to its next place: takes the lock, asks the device, is woken, or gives the lock back. */
  lemma SenderMoves(lock: Lock, busy: bool, messageSent: nat, senders: map<int, Sender>, t: int, next: Sender)
    requires SendingOk(lock, busy, messageSent, senders) && t in senders
    ensures senders[t].Outside? && lock.Free? && next.Locked? ==>
              SendingOk(HeldBy(t), busy, messageSent, senders[t := next])
    ensures senders[t].Locked? && next.Waiting? ==> SendingOk(lock, true, messageSent, senders[t := next])
    ensures senders[t].Waiting? && messageSent > 0 && next.Released? ==>
              SendingOk(lock, busy, messageSent - 1, senders[t := next])
    ensures senders[t].Released? && next.Outside? ==> SendingOk(Free, busy, messageSent, senders[t := next])
  {
  }

  lemma DeviceDone(lock: Lock, messageSent: nat, senders: map<int, Sender>)
    requires SendingOk(lock, true, messageSent, senders)
    ensures SendingOk(lock, false, messageSent + 1, senders)
  {
  }

  /** Every step keeps the invariant: no assertion fails, no packet is overwritten, lost in between or doubled. */
  lemma StepKeepsInv(s: State, step: Step)
    requires Inv(s) && Enabled(s, step)
    ensures Inv(Next(s, step))
  {
    hide HandoffOk, LinkOk, BoxesOk, SendingOk, Next;
    HandoffStep(s, step);
    LinkStep(s, step);
    BoxesStep(s, step);
    SendingStep(s, step);
  }

  ghost predicate IsRun(states: seq<State>, steps: seq<Step>) {
    && |states| == |steps| + 1 && Init(states[0])
    && forall i :: 0 <= i < |steps| ==> Enabled(states[i], steps[i]) && states[i + 1] == Next(states[i], steps[i])
  }

  lemma {:induction false} EveryRunKeepsInv(states: seq<State>, steps: seq<Step>)
    requires IsRun(states, steps)
    ensures Inv(states[|steps|])
    decreases |steps|
  {
    var n := |steps|;
    if n == 0 {
      InitInv(states[0]);
    } else {
      EveryRunKeepsInv(states[..n], steps[..n - 1]);
      StepKeepsInv(states[n - 1], steps[n - 1]);
    }
  }

  /** a is a subsequence of b: an order-preserving choice of places. */
  ghost predicate Subsequence(a: seq<Packet>, b: seq<Packet>) {
    exists at: seq<nat> :: Embeds(at, a, b)
  }

  ghost predicate Embeds(at: seq<nat>, a: seq<Packet>, b: seq<Packet>) {
    && |at| == |a|
    && (forall i :: 0 <= i < |a| ==> at[i] < |b| && b[at[i]] == a[i])
    && (forall i, j :: 0 <= i < j < |a| ==> at[i] < at[j])
  }

  /** What one sender's packets among ps are. */
  function FromSender(ps: seq<Packet>, from: int): seq<Packet> {
    if ps == [] then []
    else FromSender(ps[..|ps| - 1], from) + if ps[|ps| - 1].from == from then [ps[|ps| - 1]] else []
  }

  /** Where in FromSender(ps, from) the packets of ps[..n] end. */
  lemma {:induction false} FilterPlace(ps: seq<Packet>, from: int, n: nat)
    requires n < |ps| && ps[n].from == from
    ensures |FromSender(ps[..n], from)| < |FromSender(ps, from)|
    ensures FromSender(ps, from)[|FromSender(ps[..n], from)|] == ps[n]
    decreases |ps|
  {
    var m := |ps| - 1;
    if n < m {
      FilterPlace(ps[..m], from, n);
      assert ps[..m][..n] == ps[..n];
    }
  }

  lemma {:induction false} FilterGrows(ps: seq<Packet>, from: int, m: nat, n: nat)
    requires m <= n <= |ps|
    ensures |FromSender(ps[..m], from)| <= |FromSender(ps[..n], from)|
    decreases n
  {
    if m < n {
      FilterGrows(ps, from, m, n - 1);
      assert ps[..n][..n - 1] == ps[..n - 1];
    }
  }

  /** An embedding of a into b gives one of each sender's packets in a into that sender's packets in b. */
  lemma {:induction false} SenderSubsequence(at: seq<nat>, a: seq<Packet>, b: seq<Packet>, from: int)
    returns (at2: seq<nat>)
    requires Embeds(at, a, b) && |at| == |a|
    ensures Embeds(at2, FromSender(a, from), FromSender(b, from))
    ensures forall i :: 0 <= i < |at2| ==> at2[i] < |FromSender(b[..if a == [] then 0 else at[|a| - 1] + 1], from)|
    decreases |a|
  {
    hide FromSender, Embeds;
    if a == [] {
      FromSenderNothing(from);
      EmbedsNothing(FromSender(a, from), FromSender(b, from));
      at2 := [];
    } else {
      var n := |a| - 1;
      var p := EmbedsPrefix(at, a, b);
      var rest := SenderSubsequence(at[..n], a[..n], b, from);
      FilterGrows(b, from, if n == 0 then 0 else at[n - 1] + 1, p);
      FilterGrows(b, from, p, p + 1);
      FromSenderLast(a, from);
      at2 := rest;
      if a[n].from == from {
        FilterPlace(b, from, p);
        FilterPlace(b[..p + 1], from, p);
        assert b[..p + 1][..p] == b[..p];
        EmbedsOneMore(rest, FromSender(a[..n], from), FromSender(b, from), |FromSender(b[..p], from)|, a[n]);
        at2 := rest + [|FromSender(b[..p], from)|];
      }
    }
  }

  lemma FromSenderNothing(from: int)
    ensures FromSender([], from) == []
  {
  }

  lemma FromSenderLast(ps: seq<Packet>, from: int)
    requires ps != []
    ensures var rest := FromSender(ps[..|ps| - 1], from);
            FromSender(ps, from) == if ps[|ps| - 1].from == from then rest + [ps[|ps| - 1]] else rest
  {
  }

  lemma EmbedsNothing(a: seq<Packet>, b: seq<Packet>)
    requires a == []
    ensures Embeds([], a, b)
  {
  }

  lemma EmbedsPrefix(at: seq<nat>, a: seq<Packet>, b: seq<Packet>) returns (p: nat)
    requires Embeds(at, a, b) && a != []
    ensures |at| == |a| && p == at[|a| - 1] && p < |b| && b[p] == a[|a| - 1]
    ensures Embeds(at[..|a| - 1], a[..|a| - 1], b) && (|a| > 1 ==> at[|a| - 2] < p)
  {
    p := at[|a| - 1];
  }

  lemma EmbedsOneMore(at: seq<nat>, a: seq<Packet>, b: seq<Packet>, p: nat, v: Packet)
    requires Embeds(at, a, b) && p < |b| && b[p] == v && forall i :: 0 <= i < |at| ==> at[i] < p
    ensures Embeds(at + [p], a + [v], b)
  {
  }

  /** Over every run: what the boxes have received, in order, is what was taken from the socket, bar the packet in
      the worker's hand and the one in the inbox; each box's mail, handed out and waiting, is its share of that
      in order; and of every sender's packets a subsequence has been taken. */
  lemma DeliveryIsFaithful(states: seq<State>, steps: seq<Step>, from: int)
    requires IsRun(states, steps)
    ensures var s := states[|steps|];
            && !s.failed
            && s.put <= s.taken && |s.taken| <= |s.put| + 2
            && (forall b :: 0 <= b < s.numBoxes ==>
                  b in s.got && b in s.boxes && s.got[b] + s.boxes[b] == ForBox(s.put, b))
            && Subsequence(FromSender(s.taken, from), FromSender(s.sent, from))
  {
    hide FromSender, ForBox;
    EveryRunKeepsInv(states, steps);
    var s := states[|steps|];
    var at := s.arrived[..|s.taken|];
    assert forall i :: 0 <= i < |s.taken| ==> (s.taken + s.socket)[i] == s.taken[i];
    assert Embeds(s.arrived, s.taken + s.socket, s.sent) && Embeds(at, s.taken, s.sent);
    var at2 := SenderSubsequence(at, s.taken, s.sent, from);
  }

  /** The packets that threads have called Send with, in the order in which they got the send lock. */
  function Asked(steps: seq<Step>): seq<Packet> {
    if steps == [] then []
    else
      var last := steps[|steps| - 1];
      Asked(steps[..|steps| - 1]) + if last.SendLocks? then [last.packet] else []
  }

  /** The packets sent to this machine that the network did not lose, in order. */
  function Survivors(steps: seq<Step>): seq<Packet> {
    if steps == [] then []
    else
      var last := steps[|steps| - 1];
      Survivors(steps[..|steps| - 1]) + if last.Transmit? && !last.lost then [last.packet] else []
  }

  /** The packet of the thread that holds the send lock and has yet to ask the device. */
  function Unsent(s: State): seq<Packet> {
    if s.sendLock.HeldBy? && s.sendLock.t in s.senders && s.senders[s.sendLock.t].Locked?
    then [s.senders[s.sendLock.t].packet]
    else []
  }

  /** What one step adds to the traffic out. */
  lemma StepOutgoing(s: State, step: Step)
    requires Inv(s) && Enabled(s, step)
    ensures var s2 := Next(s, step);
            s2.outgoing + Unsent(s2) == s.outgoing + Unsent(s) + if step.SendLocks? then [step.packet] else []
  {
    hide HandoffOk, LinkOk, BoxesOk, InHand, InInbox;
    var s2 := Next(s, step);
    match step
    case SendLocks(t, packet) => assert Unsent(s) == [] && Unsent(s2) == [packet];
    case SendAsks(t) => assert Unsent(s2) == [];
    case SendDone => assert Unsent(s2) == Unsent(s);
    case SendWakes(t) => assert Unsent(s) == Unsent(s2) == [];
    case SendReturns(t) => assert Unsent(s) == Unsent(s2) == [];
    case _ => assert s2.outgoing == s.outgoing && s2.senders == s.senders && s2.sendLock == s.sendLock;
  }

  /** What one step adds to the traffic in. */
  lemma StepIncoming(s: State, step: Step)
    requires Enabled(s, step)
    ensures var s2 := Next(s, step);
            s2.taken + s2.socket == s.taken + s.socket +
            if step.Transmit? && !step.lost then [step.packet] else []
  {
    var s2 := Next(s, step);
    match step
    case Transmit(packet, lost) =>
      assert !lost ==> s2.taken + s2.socket == s.taken + s.socket + [packet];
    case Poll =>
      assert s2.taken + s2.socket == s.taken + s.socket;
    case _ =>
      assert s2.taken == s.taken && s2.socket == s.socket;
  }

  /** Over every run: the network has been given the packets of those that called Send, each once, in the order in
      which they got the lock, up to the one just about to; and every packet that came in is in the boxes, in the
      worker's hand, in the inbox or still in the socket, in the order of arrival. */
  lemma {:induction false} EveryRunConserves(states: seq<State>, steps: seq<Step>)
    requires IsRun(states, steps)
    ensures var s := states[|steps|];
            && Asked(steps) == s.outgoing + Unsent(s)
            && Survivors(steps) == s.put + InHand(s.worker) + InInbox(s.inbox) + s.socket
    decreases |steps|
  {
    hide Inv, LinkOk, BoxesOk, SendingOk, Unsent, Next;
    EveryRunTraffic(states, steps);
    EveryRunKeepsInv(states, steps);
    InvHandoff(states[|steps|]);
  }

  lemma InvHandoff(s: State)
    requires Inv(s)
    ensures s.taken == s.put + InHand(s.worker) + InInbox(s.inbox)
  {
    hide LinkOk, BoxesOk, SendingOk;
  }

  lemma {:induction false} EveryRunTraffic(states: seq<State>, steps: seq<Step>)
    requires IsRun(states, steps)
    ensures var s := states[|steps|];
            Asked(steps) == s.outgoing + Unsent(s) && Survivors(steps) == s.taken + s.socket
    decreases |steps|
  {
    hide Inv, Unsent, Next;
    var n := |steps|;
    if n == 0 {
      assert states[0].outgoing + Unsent(states[0]) == [] by {
        InitUnsent(states[0]);
      }
    } else {
      EveryRunTraffic(states[..n], steps[..n - 1]);
      EveryRunKeepsInv(states[..n], steps[..n - 1]);
      StepOutgoing(states[n - 1], steps[n - 1]);
      StepIncoming(states[n - 1], steps[n - 1]);
    }
  }

  lemma InitUnsent(s: State)
    requires Init(s)
    ensures Unsent(s) == []
  {
  }

  /** How many steps of the receiving half the packets that have come in still need to get to their boxes. */
  function ToDeliver(s: State): nat {
    4 * |s.socket| + (if s.inbox.Nothing? then 0 else if s.worker.Woken? then 2 else 3) +
    if s.worker.Sorting? then 1 else 0
  }

  /** A step that takes a packet further: the device reads one, or the postal worker moves on. */
  predicate Delivers(s: State, step: Step) {
    && Enabled(s, step)
    && (step.WorkerWakes? || step.WorkerReceives? || step.WorkerPuts?
        || (step.Poll? && s.inbox.Nothing? && s.socket != []))
  }

  /** Each such step leaves one less to do, and no other adds to it but an arrival. */
  lemma DeliveryStep(s: State, step: Step)
    requires Inv(s) && Enabled(s, step)
    ensures ToDeliver(Next(s, step)) ==
            if Delivers(s, step) then ToDeliver(s) - 1
            else ToDeliver(s) + if step.Transmit? && !step.lost then 4 else 0
  {
    hide LinkOk, BoxesOk, SendingOk, InHand, InInbox;
    NothingFails(s, step);
  }

  /** The receiving half is never stuck: while a packet is not yet in its box, some step takes one further; and when
      nothing is left to do, every packet that came in is in the boxes. */
  lemma DeliveryGoesOn(s: State)
    requires Inv(s)
    ensures ToDeliver(s) > 0 <==> exists step :: Delivers(s, step)
    ensures ToDeliver(s) == 0 <==> s.put == s.taken + s.socket
  {
    hide LinkOk, BoxesOk, SendingOk;
    if ToDeliver(s) > 0 {
      var step := if s.worker.Woken? then WorkerReceives
                  else if s.worker.Sorting? then WorkerPuts
                  else if s.inbox.Holding? then WorkerWakes
                  else Poll;
      assert Delivers(s, step);
    }
  }
}
