/** The reliable post office: stop-and-wait with acknowledgements over a link that loses packets. */
module Tcp {
  type int8 = x: int | -128 <= x < 128

  const MAXCATCH := 20
  const MAX_MAIL_SIZE := 40

  /** A transmission, as far as the protocol looks at it: its mailbox and its first byte, the token. */
  datatype Packet = Packet(box: int, first: int8)

  /** The argument out of SendWait, which may be NULL. */
  datatype Outgoing = NoMessage | Message(packet: Packet)

  /** An acknowledgement, with the transmission it answers. */
  datatype Ack = Ack(token: int8, origin: nat)

  /** One direction of a connection: everything ever sent, numbered; what the peer may still take (the rest was
      lost), what it has taken, and what of that it has not answered; the ACKs on their way or in the mailbox,
      and those the sender has taken. Delivery in order is one case of delivery in any order. */
  datatype Link = Link(sent: seq<Packet>, pending: set<nat>, taken: set<nat>, owed: set<nat>, acks: set<Ack>,
      received: seq<Ack>)

  /** data[0] + 1, stored into a char. */
  function Incremented(b: int8): int8 {
    if b == 127 then -128 else b + 1
  }

  ghost predicate AckOk(l: Link, a: Ack) {
    a.origin < |l.sent| && a.origin in l.taken && a.origin !in l.owed && a.token == Incremented(l.sent[a.origin].first)
  }

  /** Every ACK is charged to a transmission of its own, which the peer took, and whose first byte is its token less
      one. */
  ghost predicate Accounted(l: Link) {
    && (forall i :: i in l.pending || i in l.taken ==> i < |l.sent|)
    && l.pending !! l.taken && l.owed <= l.taken
    && (forall a :: a in l.acks ==> AckOk(l, a))
    && (forall i :: 0 <= i < |l.received| ==> AckOk(l, l.received[i]) && l.received[i] !in l.acks)
    && (forall i, j :: 0 <= i < j < |l.received| ==> l.received[i] != l.received[j])
  }

  /** No transmission is answered twice. */
  lemma OneAckEach(l: Link, a: Ack, b: Ack)
    requires Accounted(l) && (a in l.acks || a in l.received) && (b in l.acks || b in l.received)
    requires a.origin == b.origin
    ensures a == b
  {
  }

  // ---- The link's steps ----

  function Sent(l: Link, p: Packet, lost: bool): Link {
    l.(sent := l.sent + [p], pending := if lost then l.pending else l.pending + {|l.sent|})
  }

  function PeerTook(l: Link, i: nat): Link {
    l.(pending := l.pending - {i}, taken := l.taken + {i}, owed := l.owed + {i})
  }

  function PeerAnswered(l: Link, i: nat, token: int8, lost: bool): Link {
    l.(owed := l.owed - {i}, acks := if lost then l.acks else l.acks + {Ack(token, i)})
  }

  function AckTaken(l: Link, a: Ack): Link {
    l.(acks := l.acks - {a}, received := l.received + [a])
  }

  lemma SentAccounted(l: Link, p: Packet, lost: bool)
    requires Accounted(l)
    ensures Accounted(Sent(l, p, lost))
  {
    assert forall a :: AckOk(l, a) ==> AckOk(Sent(l, p, lost), a);
  }

  lemma TookAccounted(l: Link, i: nat)
    requires Accounted(l) && i in l.pending
    ensures Accounted(PeerTook(l, i))
  {
    assert forall a :: AckOk(l, a) ==> AckOk(PeerTook(l, i), a);
  }

  /** A peer that answers what it has taken, once and with its first byte plus one, keeps the accounts. */
  lemma AnsweredAccounted(l: Link, i: nat, token: int8, lost: bool)
    requires Accounted(l) && i in l.owed && token == Incremented(l.sent[i].first)
    ensures Accounted(PeerAnswered(l, i, token, lost))
  {
    var l2 := PeerAnswered(l, i, token, lost);
    assert forall a :: AckOk(l, a) ==> AckOk(l2, a) && a != Ack(token, i);
    assert AckOk(l2, Ack(token, i));
  }

  lemma TakenAccounted(l: Link, a: Ack)
    requires Accounted(l) && a in l.acks
    ensures Accounted(AckTaken(l, a))
  {
    assert forall b :: AckOk(l, b) ==> AckOk(AckTaken(l, a), b);
  }

  // ---- What the accounts are good for ----

  /** The ACKs outstanding for transmissions number start and later. */
  function Outstanding(l: Link, start: nat): set<Ack> {
    set a | a in l.acks && a.origin >= start
  }

  /** The numbers from a to b. */
  function Range(a: nat, b: nat): (s: set<nat>)
    requires a <= b
    ensures |s| == b - a && forall x :: x in s <==> a <= x < b
    decreases b - a
  {
    if a == b then {} else Range(a, b - 1) + {b - 1}
  }

  lemma {:induction false} AcksFit(acks: set<Ack>, origins: set<nat>)
    requires forall a :: a in acks ==> a.origin in origins
    requires forall a, b :: a in acks && b in acks && a.origin == b.origin ==> a == b
    ensures |acks| <= |origins|
    decreases |acks|
  {
    if acks != {} {
      var a :| a in acks;
      AcksFit(acks - {a}, origins - {a.origin});
    }
  }

  /** As many ACKs of an exchange are outstanding as it has made transmissions, at most; fewer, if one of its own
      ACKs has been received. */
  lemma OutstandingAcks(l: Link, start: nat)
    requires Accounted(l) && start <= |l.sent|
    ensures |Outstanding(l, start)| <= |l.sent| - start
    ensures (exists a :: a in l.received && a.origin >= start) ==> |Outstanding(l, start)| <= |l.sent| - start - 1
  {
    var out := Outstanding(l, start);
    forall a, b | a in out && b in out && a.origin == b.origin
      ensures a == b
    {
      OneAckEach(l, a, b);
    }
    AcksFit(out, Range(start, |l.sent|));
    if a :| a in l.received && a.origin >= start {
      var i :| 0 <= i < |l.received| && l.received[i] == a;
      forall b | b in out
        ensures b.origin in Range(start, |l.sent|) - {a.origin}
      {
        if b.origin == a.origin {
          OneAckEach(l, a, b);
        }
      }
      AcksFit(out, Range(start, |l.sent|) - {a.origin});
    }
  }

  /** Nothing before transmission number start is under way any more. */
  ghost predicate Quiet(l: Link, start: nat) {
    (forall i :: i in l.pending || i in l.owed ==> i >= start) && (forall a :: a in l.acks ==> a.origin >= start)
  }

  /** What the peer and the link may do in one step: take a transmission, or answer one it has taken. */
  ghost predicate PeerStep(l: Link, l2: Link) {
    || (exists i :: i in l.pending && l2 == PeerTook(l, i))
    || (exists i, lost :: i in l.owed && i < |l.sent| && l2 == PeerAnswered(l, i, Incremented(l.sent[i].first), lost))
  }

  ghost predicate PeerRun(ls: seq<Link>) {
    ls != [] && forall k :: 0 <= k < |ls| - 1 ==> PeerStep(ls[k], ls[k + 1])
  }

  /** SendWait's first turn: the message goes out, the peer acts, an ACK a is taken, and the link is then l2. */
  ghost predicate FirstTurn(l: Link, p: Packet, ls: seq<Link>, a: Ack, l2: Link) {
    && PeerRun(ls) && (exists lost :: ls[0] == Sent(l, p, lost))
    && a in ls[|ls| - 1].acks && l2 == AckTaken(ls[|ls| - 1], a)
  }

  /** The quota is enough whenever the first turn is answered: none of the exchange's ACKs is left, whatever the peer
      did. */
  ghost predicate QuotaSuffices(l: Link, p: Packet) {
    forall ls, a, l2 :: FirstTurn(l, p, ls, a, l2) ==> Outstanding(l2, |l.sent|) == {}
  }

  lemma PeerStepKeeps(l: Link, l2: Link, start: nat)
    requires Accounted(l) && PeerStep(l, l2)
    ensures Accounted(l2) && l2.sent == l.sent && l2.received == l.received && (Quiet(l, start) ==> Quiet(l2, start))
  {
    if i :| i in l.pending && l2 == PeerTook(l, i) {
      TookAccounted(l, i);
    } else {
      var i, lost :| i in l.owed && i < |l.sent| && l2 == PeerAnswered(l, i, Incremented(l.sent[i].first), lost);
      AnsweredAccounted(l, i, Incremented(l.sent[i].first), lost);
    }
  }

  lemma {:induction false} PeerRunKeeps(ls: seq<Link>, start: nat)
    requires PeerRun(ls) && Accounted(ls[0])
    ensures var l2 := ls[|ls| - 1];
            Accounted(l2) && l2.sent == ls[0].sent && l2.received == ls[0].received
                 && (Quiet(ls[0], start) ==> Quiet(l2, start))
    decreases |ls|
  {
    hide Accounted, Quiet, PeerStep;
    var n := |ls| - 1;
    if n > 0 {
      PeerRunKeeps(ls[..n], start);
      assert PeerStep(ls[n - 1], ls[n]);
      PeerStepKeeps(ls[n - 1], ls[n], start);
    }
  }

  lemma RunOn(ls: seq<Link>, l: Link)
    requires PeerRun(ls) && PeerStep(ls[|ls| - 1], l)
    ensures PeerRun(ls + [l])
  {
    hide PeerStep;
  }

  /** When nothing is under way the quota suffices. */
  lemma QuietSuffices(l: Link, p: Packet)
    requires Accounted(l) && Quiet(l, |l.sent|)
    ensures QuotaSuffices(l, p)
  {
    var start := |l.sent|;
    forall ls, a, l2 | FirstTurn(l, p, ls, a, l2)
      ensures Outstanding(l2, start) == {}
    {
      var lost :| ls[0] == Sent(l, p, lost);
      SentAccounted(l, p, lost);
      PeerRunKeeps(ls, start);
      TakenAccounted(ls[|ls| - 1], a);
      assert l2.received[|l2.received| - 1] == a;
      OutstandingAcks(l2, start);
    }
  }

  /** The peer may always come to answer a transmission it could take or has taken, and nothing else is lost by it. */
  lemma AnswerRun(l: Link, i: nat) returns (ls: seq<Link>)
    requires Accounted(l) && (i in l.pending || i in l.owed)
    ensures PeerRun(ls) && ls[0] == l && i < |l.sent| && Accounted(ls[|ls| - 1])
    ensures ls[|ls| - 1].acks == l.acks + {Ack(Incremented(l.sent[i].first), i)} && ls[|ls| - 1].sent == l.sent
    ensures ls[|ls| - 1].pending == l.pending - {i} && ls[|ls| - 1].received == l.received
  {
    var token := Incremented(l.sent[i].first);
    if i in l.owed {
      AnsweredAccounted(l, i, token, false);
      ls := [l, PeerAnswered(l, i, token, false)];
    } else {
      TookAccounted(l, i);
      var l1 := PeerTook(l, i);
      AnsweredAccounted(l1, i, token, false);
      ls := [l, l1, PeerAnswered(l1, i, token, false)];
      assert PeerStep(ls[1], ls[2]);
    }
    assert PeerStep(ls[0], ls[1]);
  }

  lemma RunsJoin(a: seq<Link>, b: seq<Link>)
    requires PeerRun(a) && PeerRun(b) && b[0] == a[|a| - 1]
    ensures PeerRun(a + b[1..]) && (a + b[1..])[|a + b[1..]| - 1] == b[|b| - 1] && (a + b[1..])[0] == a[0]
  {
    hide PeerStep;
    var c := a + b[1..];
    forall k | 0 <= k < |c| - 1
      ensures PeerStep(c[k], c[k + 1])
    {
      if k >= |a| - 1 {
        assert c[k] == b[k - (|a| - 1)] && c[k + 1] == b[k + 1 - (|a| - 1)];
      }
    }
  }

  /** When something is under way the peer can make the quota fall short: an ACK of an earlier transmission comes
      on the first turn, while the answer to this one is still to come. */
  lemma StaleAckLeavesOneMore(l: Link, p: Packet) returns (ls: seq<Link>, a: Ack, l2: Link)
    requires Accounted(l) && !Quiet(l, |l.sent|)
    ensures FirstTurn(l, p, ls, a, l2) && a.origin < |l.sent|
    ensures Ack(Incremented(p.first), |l.sent|) in Outstanding(l2, |l.sent|)
  {
    var start := |l.sent|;
    var l0 := Sent(l, p, false);
    SentAccounted(l, p, false);
    ls := [l0];
    if stale :| stale in l.acks && stale.origin < start {
      a := stale;
    } else {
      var i :| (i in l.pending || i in l.owed) && i < start;
      ls := AnswerRun(l0, i);
      a := Ack(Incremented(l0.sent[i].first), i);
    }
    var more := AnswerRun(ls[|ls| - 1], start);
    RunsJoin(ls, more);
    ls := ls + more[1..];
    l2 := AckTaken(ls[|ls| - 1], a);
  }

  /** The exact condition: CatchMail's quota covers what an answered first turn leaves, whatever the peer does, if and
      only if nothing was under way before. */
  lemma QuotaSufficesIffQuiet(l: Link, p: Packet)
    requires Accounted(l)
    ensures QuotaSuffices(l, p) <==> Quiet(l, |l.sent|)
  {
    hide Accounted, Quiet, FirstTurn, Outstanding;
    if Quiet(l, |l.sent|) {
      QuietSuffices(l, p);
    } else {
      var ls, a, l2 := StaleAckLeavesOneMore(l, p);
    }
  }

  /** A token that passes SendWait's check answers a transmission with the first byte that was sent. */
  lemma TokenMeansTaken(l: Link, a: Ack, first: int8)
    requires Accounted(l) && a in l.received && first + 1 == a.token
    ensures first < 127 && TookFirst(l, a, first)
  {
  }

  /** The two ends' shared view of one direction. */
  class Wire {
    var link: Link

    constructor ()
      ensures Valid() && link == Link([], {}, {}, {}, {}, [])
    {
      link := Link([], {}, {}, {}, {}, []);
    }

    ghost predicate Valid()
      reads this
    {
      Accounted(link)
    }

    /** postOffice->Send of a message; it may be lost. */
    method Send(p: Packet)
      requires Valid()
      modifies this
      ensures Valid() && exists lost :: link == Sent(old(link), p, lost)
    {
      var lost: bool := *;
      SentAccounted(link, p, lost);
      link := Sent(link, p, lost);
    }

    /** postOffice->NoBlockReceive from the ACK box: a waiting ACK, or nothing yet. */
    method NoBlockReceiveAck() returns (ok: bool, token: int8, ghost origin: nat)
      requires Valid()
      modifies this
      ensures Valid()
      ensures ok ==> Ack(token, origin) in old(link).acks && link == AckTaken(old(link), Ack(token, origin))
      ensures !ok ==> link == old(link)
    {
      ok, token, origin := *, 0, 0;
      if ok && link.acks != {} {
        var a :| a in link.acks;
        TakenAccounted(link, a);
        link := AckTaken(link, a);
        token, origin := a.token, a.origin;
      } else {
        ok := false;
      }
    }

    /** postOffice->NoBlockReceive at the other end. */
    method NoBlockReceive(box: int) returns (ok: bool, first: int8, i: nat)
      requires Valid()
      modifies this
      ensures Valid()
      ensures ok ==>
                i in old(link).pending && link == PeerTook(old(link), i) && i < |link.sent|
                && link.sent[i].first == first
      ensures ok ==> link.sent[i].box == box
      ensures !ok ==> link == old(link)
    {
      ok, first, i := *, 0, 0;
      var waiting := set j | j in link.pending && j < |link.sent| && link.sent[j].box == box;
      if ok && waiting != {} {
        var j :| j in waiting;
        TookAccounted(link, j);
        first, i := link.sent[j].first, j;
        link := PeerTook(link, j);
      } else {
        ok := false;
      }
    }

    /** postOffice->Send of an ACK; it may be lost. */
    method SendAck(token: int8, i: nat)
      requires Valid() && i in link.owed && token == Incremented(link.sent[i].first)
      modifies this
      ensures Valid() && exists lost :: link == PeerAnswered(old(link), i, token, lost)
    {
      var lost: bool := *;
      AnsweredAccounted(link, i, token, lost);
      link := PeerAnswered(link, i, token, lost);
    }

    /** What the peer may do meanwhile: take transmissions, and answer each at most once, with its first byte plus one.
        */
    method PeerActs()
      requires Valid()
      modifies this
      ensures Valid() && link.sent == old(link).sent && link.received == old(link).received
      ensures old(link).taken <= link.taken
      ensures forall start: nat :: Quiet(old(link), start) ==> Quiet(link, start)
      ensures exists ls :: PeerRun(ls) && ls[0] == old(link) && ls[|ls| - 1] == link
    {
      var acts: seq<bool> := *;
      ghost var ls := [link];
      for k := 0 to |acts|
        invariant PeerRun(ls) && ls[0] == old(link) && ls[|ls| - 1] == link
        invariant Valid() && link.sent == old(link).sent && link.received == old(link).received
        invariant old(link).taken <= link.taken
        invariant forall start: nat :: Quiet(old(link), start) ==> Quiet(link, start)
      {
        var box: int := *;
        var ok, first, i := NoBlockReceive(box);
        if ok {
          RunOn(ls, link);
          ls := ls + [link];
        }
        if ok && acts[k] {
          SendAckNow(first);
          RunOn(ls, link);
          ls := ls + [link];
        }
      }
    }

    /** An answer to the one transmission just taken. */
    method SendAckNow(first: int8)
      requires Valid() && exists i :: i in link.owed && link.sent[i].first == first
      modifies this
      ensures Valid() && link.sent == old(link).sent && link.received == old(link).received
      ensures link.taken == old(link).taken
      ensures PeerStep(old(link), link)
      ensures forall start: nat :: Quiet(old(link), start) ==> Quiet(link, start)
    {
      var i :| i in link.owed && link.sent[i].first == first;
      SendAck(Incremented(first), i);
    }

    /** What the sender may do meanwhile: transmit, and take ACKs. */
    method SenderActs()
      requires Valid()
      modifies this
      ensures Valid() && link.owed == old(link).owed && link.taken == old(link).taken && old(link).sent <= link.sent
    {
      var acts: seq<bool> := *;
      for k := 0 to |acts|
        invariant Valid() && link.owed == old(link).owed && link.taken == old(link).taken && old(link).sent <= link.sent
      {
        var p: Packet := *;
        if acts[k] {
          Send(p);
        } else {
          var ok, token, origin := NoBlockReceiveAck();
        }
      }
    }
  }

  class TCPostOffice {
    const outgoing: Wire
    const incoming: Wire
    var stoppingConnection: bool
    ghost var polls: nat

    ghost predicate Valid()
      reads this, outgoing, incoming
    {
      outgoing.Valid() && incoming.Valid() && outgoing != incoming
    }

    constructor (outgoing: Wire, incoming: Wire)
      requires outgoing.Valid() && incoming.Valid() && outgoing != incoming
      ensures Valid() && !stoppingConnection && this.outgoing == outgoing && this.incoming == incoming
    {
      this.outgoing, this.incoming, stoppingConnection, polls := outgoing, incoming, false, 0;
    }

    /** Schedule a wake-up and stopSem->P(): meanwhile the peer acts, and the connection may be stopped. */
    method AwaitPeer()
      requires Valid()
      modifies outgoing, this`stoppingConnection, this`polls
      ensures Valid() && polls == old(polls) + 1 && (old(stoppingConnection) ==> stoppingConnection)
      ensures outgoing.link.sent == old(outgoing.link.sent) && outgoing.link.received == old(outgoing.link.received)
      ensures forall start: nat :: Quiet(old(outgoing.link), start) ==> Quiet(outgoing.link, start)
      ensures exists ls :: PeerRun(ls) && ls[0] == old(outgoing.link) && ls[|ls| - 1] == outgoing.link
    {
      outgoing.PeerActs();
      var stopped: bool := *;
      stoppingConnection := stoppingConnection || stopped;
      polls := polls + 1;
    }

    method AwaitSender()
      requires Valid()
      modifies incoming, this`stoppingConnection, this`polls
      ensures Valid() && polls == old(polls) + 1 && (old(stoppingConnection) ==> stoppingConnection)
      ensures incoming.link.owed == old(incoming.link.owed) && incoming.link.taken == old(incoming.link.taken)
      ensures old(incoming.link.sent) <= incoming.link.sent
    {
      incoming.SenderActs();
      var stopped: bool := *;
      stoppingConnection := stoppingConnection || stopped;
      polls := polls + 1;
    }

    /** CatchMail: at most the expected number of ACKs are thrown away, in at most MAXCATCH polls for each, although
        every catch starts the count again. */
    method CatchMail(expected: nat) returns (r: int)
      requires Valid()
      modifies outgoing, this`stoppingConnection, this`polls
      ensures Valid() && polls <= old(polls) + 20 * expected && (old(stoppingConnection) ==> stoppingConnection)
      ensures outgoing.link.sent == old(outgoing.link.sent) && old(outgoing.link.received) <= outgoing.link.received
      ensures r == -2 <==> expected > 0 && stoppingConnection
      ensures r != -2 ==> 0 <= r <= expected && |outgoing.link.received| == |old(outgoing.link.received)| + r
      ensures r != -2 && r < expected ==> polls >= old(polls) + r + 20
    {
      var attempts, nbCatch := 0, 0;
      while attempts < MAXCATCH && nbCatch < expected
        invariant Valid() && 0 <= attempts <= MAXCATCH && 0 <= nbCatch <= expected
        invariant (old(stoppingConnection) ==> stoppingConnection)
        invariant old(polls) + nbCatch + attempts <= polls <= old(polls) + 20 * nbCatch + attempts
        invariant polls > old(polls) ==> !stoppingConnection
        invariant attempts > 0 || nbCatch > 0 ==> polls > old(polls)
        invariant nbCatch == expected ==> attempts == 0
        invariant outgoing.link.sent == old(outgoing.link.sent) && old(outgoing.link.received) <= outgoing.link.received
        invariant |outgoing.link.received| == |old(outgoing.link.received)| + nbCatch
        decreases expected - nbCatch, MAXCATCH - attempts
      {
        AwaitPeer();
        if stoppingConnection {
          return -2;
        }
        var ok, token, origin := outgoing.NoBlockReceiveAck();
        if ok {
          attempts := 0;
          nbCatch := nbCatch + 1;
          if nbCatch == expected {
            break;
          }
        } else {
          attempts := attempts + 1;
        }
      }
      r := nbCatch;
    }

    /** One turn of it, up to the look into the mailbox. */
    method SendAndAwait(out: Outgoing)
      requires Valid()
      modifies outgoing, this`stoppingConnection, this`polls
      ensures Valid() && polls == old(polls) + 1 && (old(stoppingConnection) ==> stoppingConnection)
      ensures outgoing.link.sent == old(outgoing.link.sent) + (if out.Message? then [out.packet] else [])
      ensures outgoing.link.received == old(outgoing.link.received)
      ensures forall start: nat :: start <= |old(outgoing.link.sent)| && Quiet(old(outgoing.link), start) ==>
                Quiet(outgoing.link, start)
      ensures out.Message? ==> exists ls ::
                PeerRun(ls) && ls[|ls| - 1] == outgoing.link
                && exists lost :: ls[0] == Sent(old(outgoing.link), out.packet, lost)
    {
      hide Accounted, PeerRun;
      if out.Message? {
        outgoing.Send(out.packet);
      }
      assert forall start: nat :: start <= |old(outgoing.link.sent)| && Quiet(old(outgoing.link), start) ==>
          Quiet(outgoing.link, start);
      AwaitPeer();
    }

    /** SendWait's loop: transmissions until an ACK comes. When CatchMail is called with attempts as its quota, that
        many ACKs of this exchange are outstanding at most, or one more if the ACK that came was a stale one,
        answering an earlier exchange; and none can be stale if nothing was under way at the start. */
    method TransmitUntilAnswered(out: Outgoing, limit: int)
      returns (stopped: bool, attempts: nat, in0: int8, ghost ack: Ack)
      requires Valid() && limit > 0
      modifies outgoing, this`stoppingConnection, this`polls
      ensures Valid() && old(outgoing.link.sent) <= outgoing.link.sent && attempts <= limit
      ensures polls <= old(polls) + limit
      ensures |outgoing.link.sent| <= |old(outgoing.link.sent)| + limit
      ensures forall i :: |old(outgoing.link.sent)| <= i < |outgoing.link.sent| ==>
                out == Message(outgoing.link.sent[i])
      ensures (old(stoppingConnection) ==> stopped) && (stopped <==> stoppingConnection)
      ensures !stopped ==>
                && polls == old(polls) + attempts + (if attempts < limit then 1 else 0)
                && |outgoing.link.sent| == |old(outgoing.link.sent)| + if out.Message? then polls - old(polls) else 0
      ensures !stopped && attempts < limit ==>
                in0 == ack.token && outgoing.link.received == old(outgoing.link.received) + [ack]
      ensures !stopped && attempts == limit ==> outgoing.link.received == old(outgoing.link.received)
      ensures !stopped ==>
                |Outstanding(outgoing.link, |old(outgoing.link.sent)|)|
                  <= attempts + (if attempts < limit && ack.origin < |old(outgoing.link.sent)| then 1 else 0)
      ensures !stopped && attempts == 0 && out.Message? ==>
                exists ls :: FirstTurn(old(outgoing.link), out.packet, ls, ack, outgoing.link)
      ensures !stopped && attempts < limit && Quiet(old(outgoing.link), |old(outgoing.link.sent)|) ==>
                ack.origin >= |old(outgoing.link.sent)|
    {
      hide Accounted, Outstanding, PeerStep;
      stopped, attempts, in0, ack := false, 0, 0, Ack(0, 0);
      ghost var start, received0 := |outgoing.link.sent|, outgoing.link.received;
      while attempts < limit
        invariant Valid() && 0 <= attempts <= limit
        invariant |outgoing.link.sent| == start + if out.Message? then attempts else 0
        invariant attempts == 0 ==> outgoing.link == old(outgoing.link)
        invariant old(outgoing.link.sent) <= outgoing.link.sent && outgoing.link.received == received0
        invariant forall i :: start <= i < |outgoing.link.sent| ==> out == Message(outgoing.link.sent[i])
        invariant polls == old(polls) + attempts && (old(stoppingConnection) ==> stoppingConnection)
        invariant (attempts > 0 ==> !stoppingConnection)
        invariant Quiet(old(outgoing.link), start) ==> Quiet(outgoing.link, start)
      {
        ghost var before := outgoing.link;
        SendAndAwait(out);
        if stoppingConnection {
          return true, attempts, in0, ack;
        }
        ghost var l := outgoing.link;
        assert Quiet(old(outgoing.link), start) ==> Quiet(l, start);
        var ok, token, origin := outgoing.NoBlockReceiveAck();
        if ok {
          assert Ack(token, origin) in l.acks;
          in0, ack := token, Ack(token, origin);
          assert outgoing.link.received[|received0|] == ack;
          OutstandingAcks(outgoing.link, start);
          if attempts == 0 && out.Message? {
            ghost var ls :| PeerRun(ls) && ls[|ls| - 1] == l && exists lost :: ls[0] == Sent(before, out.packet, lost);
            assert FirstTurn(before, out.packet, ls, ack, outgoing.link);
          }
          return;
        } else {
          attempts := attempts + 1;
        }
      }
      OutstandingAcks(outgoing.link, start);
    }

    /** SendWait. It returns true exactly if an ACK came within the limit, the connection was not stopped, then or
        while further ACKs were caught, and with a message the ACK's token is the message's first byte plus one; the
        peer then took a transmission with this first byte, which is below 127. At most limit transmissions, and at
        most 21 * limit polls, CatchMail's among them. */
    method SendWait(out: Outgoing, limit: int) returns (status: bool, ghost attempts: nat, ghost ack: Ack)
      requires Valid() && limit > 0
      modifies outgoing, this`stoppingConnection, this`polls
      ensures Valid() && old(outgoing.link.sent) <= outgoing.link.sent
      ensures |outgoing.link.sent| <= |old(outgoing.link.sent)| + limit
      ensures forall i :: |old(outgoing.link.sent)| <= i < |outgoing.link.sent| ==>
                out == Message(outgoing.link.sent[i])
      ensures polls <= old(polls) + 21 * limit
      ensures status <==>
                attempts < limit && !stoppingConnection && (out.Message? ==> ack.token == out.packet.first + 1)
      ensures !stoppingConnection && attempts < limit ==> old(outgoing.link.received) + [ack] <= outgoing.link.received
      ensures !stoppingConnection && out.NoMessage? ==>
                outgoing.link.received == old(outgoing.link.received) + if attempts < limit then [ack] else []
      ensures !stoppingConnection && out.Message? ==>
                && |outgoing.link.received|
                   <= |old(outgoing.link.received)| + attempts + (if attempts < limit then 1 else 0)
                && |outgoing.link.sent| == |old(outgoing.link.sent)| + attempts + (if attempts < limit then 1 else 0)
      ensures status ==> !old(stoppingConnection) && (out.Message? ==> out.packet.first < 127)
      ensures status ==> ack in outgoing.link.received && ack !in old(outgoing.link.received)
                         && (out.Message? ==> TookFirst(outgoing.link, ack, out.packet.first))
    {
      hide Accounted, Outstanding;
      var stopped, tries, in0, answer := TransmitUntilAnswered(out, limit);
      attempts, ack := tries, answer;
      if stopped {
        return false, attempts, ack;
      }
      status := tries != limit;
      ghost var received0 := old(outgoing.link.received);
      if out.Message? {
        var caught := CatchMail(tries);
      }
      if stoppingConnection {
        return false, attempts, ack;
      }
      if out.Message? && out.packet.first + 1 != in0 {
        status := false;
      }
      if status {
        NewlyReceived(outgoing.link, received0, ack);
        if out.Message? {
          TokenMeansTaken(outgoing.link, ack, out.packet.first);
        }
      }
    }

    /** ReceiveWait's loop, looked at for so many polls: the first message to come is acknowledged. */
    method ReceiveAndAnswer(boxeID: int, horizon: nat) returns (stopped: bool, arrived: bool, in0: int8)
      requires Valid()
      modifies incoming, this`stoppingConnection, this`polls
      ensures Valid() && polls <= old(polls) + horizon && stopped == (stoppingConnection && !arrived)
      ensures incoming.link.owed == old(incoming.link.owed) && old(incoming.link.taken) <= incoming.link.taken
      ensures arrived ==> exists i ::
                i !in old(incoming.link.taken)
                && incoming.link.taken == old(incoming.link.taken) + {i}
                && i < |incoming.link.sent| && incoming.link.sent[i] == Packet(boxeID, in0)
      ensures !arrived ==> incoming.link.taken == old(incoming.link.taken)
      ensures arrived ==> horizon > 0 && !stoppingConnection
      ensures !arrived && !stopped ==> polls == old(polls) + horizon
    {
      hide Accounted;
      stopped, arrived, in0 := stoppingConnection, false, 0;
      for k := 0 to horizon
        invariant Valid() && polls == old(polls) + k && (k > 0 ==> !stoppingConnection) && stopped == stoppingConnection
        invariant incoming.link.owed == old(incoming.link.owed) && incoming.link.taken == old(incoming.link.taken)
      {
        AwaitSender();
        if stoppingConnection {
          return true, false, in0;
        }
        stopped := false;
        ghost var l := incoming.link;
        var ok, first, i := incoming.NoBlockReceive(boxeID);
        if ok {
          PendingIsNew(l, i);
          in0 := first;
          incoming.SendAck(Incremented(first), i);
          assert incoming.link.taken == old(incoming.link.taken) + {i};
          return false, true, in0;
        }
      }
    }

    /** CatchWithAnswer, looked at for so many polls: repeats of the message just acknowledged are acknowledged
        again, each answer charged to the repeat it answers; a message of another kind ends it, unanswered. */
    method CatchWithAnswer(boxeID: int, out0: int8, horizon: nat) returns (r: int)
      requires Valid()
      modifies incoming, this`stoppingConnection, this`polls
      ensures Valid() && polls <= old(polls) + horizon && (r == -2 <==> horizon > 0 && stoppingConnection)
      ensures (r != -2 ==> 0 <= r <= horizon)
      ensures old(incoming.link.owed) <= incoming.link.owed && |incoming.link.owed - old(incoming.link.owed)| <= 1
      ensures old(incoming.link.taken) <= incoming.link.taken && old(incoming.link.sent) <= incoming.link.sent
      ensures r != -2 ==>
                |incoming.link.taken - old(incoming.link.taken)|
                == r + |incoming.link.owed - old(incoming.link.owed)|
    {
      hide Accounted;
      var attempts, nbCatch, k := 0, 0, 0;
      ghost var taken0, owed0 := incoming.link.taken, incoming.link.owed;
      assert taken0 - taken0 == {} && owed0 - owed0 == {};
      while attempts < MAXCATCH && k < horizon
        invariant Valid() && 0 <= nbCatch <= k <= horizon && polls == old(polls) + k
        invariant incoming.link.owed == owed0 && taken0 <= incoming.link.taken
        invariant |incoming.link.taken - taken0| == nbCatch
        invariant old(incoming.link.sent) <= incoming.link.sent && (k > 0 ==> !stoppingConnection)
        invariant k == 0 ==> attempts == 0
        decreases horizon - k
      {
        AwaitSender();
        k := k + 1;
        if stoppingConnection {
          return -2;
        }
        ghost var l := incoming.link;
        var ok, dull, i := incoming.NoBlockReceive(boxeID);
        if ok {
          PendingIsNew(l, i);
          assert incoming.link.taken - taken0 == (l.taken - taken0) + {i};
          var token: int := dull;
          if token + 1 != out0 {
            assert incoming.link.owed - owed0 == {i};
            break;
          }
          incoming.SendAck(out0, i);
          assert incoming.link.owed == owed0;
          attempts, nbCatch := 0, nbCatch + 1;
        } else {
          attempts := attempts + 1;
        }
      }
      r := nbCatch;
    }

    /** ReceiveWait: true exactly if a message came, from the right box, and the connection was not stopped, then or
        while its repeats were answered. */
    method ReceiveWait(boxeID: int, horizon: nat) returns (r: bool, in0: int8)
      requires Valid()
      modifies incoming, this`stoppingConnection, this`polls
      ensures Valid() && old(incoming.link.taken) <= incoming.link.taken
      ensures r <==> incoming.link.taken != old(incoming.link.taken) && !stoppingConnection
      ensures incoming.link.taken != old(incoming.link.taken) ==>
                exists i :: i in incoming.link.taken && i !in old(incoming.link.taken)
                            && i < |incoming.link.sent| && incoming.link.sent[i] == Packet(boxeID, in0)
      ensures !stoppingConnection && incoming.link.taken == old(incoming.link.taken) ==> polls == old(polls) + horizon
    {
      hide Accounted;
      var stopped, arrived;
      stopped, arrived, in0 := ReceiveAndAnswer(boxeID, horizon);
      if !arrived {
        return false, in0;
      }
      ghost var i :| i !in old(incoming.link.taken) && incoming.link.taken == old(incoming.link.taken) + {i}
                     && i < |incoming.link.sent| && incoming.link.sent[i] == Packet(boxeID, in0);
      assert i in incoming.link.taken;
      ghost var sent1 := incoming.link.sent;
      var caught := CatchWithAnswer(boxeID, Incremented(in0), horizon);
      assert incoming.link.sent[i] == sent1[i] && i in incoming.link.taken;
      r := caught != -2;
    }
  }

  /** The peer took a transmission with this first byte, and a is its answer. */
  ghost predicate TookFirst(l: Link, a: Ack, first: int8) {
    a.token == first + 1 && a.origin in l.taken && a.origin < |l.sent| && l.sent[a.origin].first == first
  }

  lemma NewlyReceived(l: Link, received0: seq<Ack>, ack: Ack)
    requires Accounted(l) && received0 + [ack] <= l.received
    ensures ack in l.received && ack !in received0
  {
    assert l.received[|received0|] == ack;
    assert forall i :: 0 <= i < |received0| ==> received0[i] == l.received[i];
  }

  lemma PendingIsNew(l: Link, i: nat)
    requires Accounted(l) && i in l.pending
    ensures i !in l.taken && i !in l.owed
  {
  }

  // ---- Cutting a string into messages ----

  function Joined(pieces: seq<string>): string {
    if pieces == [] then "" else Joined(pieces[..|pieces| - 1]) + pieces[|pieces| - 1]
  }

  lemma JoinedOneMore(pieces: seq<string>, p: string)
    ensures Joined(pieces + [p]) == Joined(pieces) + p
  {
    assert (pieces + [p])[..|pieces|] == pieces;
  }

  /** CutString: as few pieces as will do, all full but perhaps the last, none empty, and joined they are the string. */
  method CutString(s: string) returns (out: seq<string>)
    requires s != ""
    ensures Joined(out) == s && 1 <= |out|
    ensures forall i :: 0 <= i < |out| - 1 ==> |out[i]| == 40
    ensures 1 <= |out[|out| - 1]| <= 40
    ensures 40 * (|out| - 1) < |s| <= 40 * |out|
  {
    var pieces := |s| / MAX_MAIL_SIZE + (if |s| % MAX_MAIL_SIZE == 0 then 0 else 1);
    var begin := 0;
    out := [];
    for i := 0 to pieces - 1
      invariant begin == MAX_MAIL_SIZE * i && |out| == i && begin <= |s| && Joined(out) == s[..begin]
      invariant forall j :: 0 <= j < i ==> |out[j]| == MAX_MAIL_SIZE
    {
      JoinedOneMore(out, s[begin..begin + MAX_MAIL_SIZE]);
      assert s[..begin] + s[begin..begin + MAX_MAIL_SIZE] == s[..begin + MAX_MAIL_SIZE];
      out := out + [s[begin..begin + MAX_MAIL_SIZE]];
      begin := begin + MAX_MAIL_SIZE;
    }
    JoinedOneMore(out, s[begin..]);
    assert s[..begin] + s[begin..] == s;
    out := out + [s[begin..]];
  }
}
