/** A server, any number of clients, and a channel each way between the server and each client. */
module Protocol {
  import opened Bytes
  import opened SeqNum
  import opened RequestTable
  import opened ClientIds
  import opened Endpoint

  /** A connection: the tick its client id was given out at, and its two ends.  Connections are never forgotten. */
  datatype Conn = Conn(tick: nat, client: End, server: End)

  datatype State = State(conns: seq<Conn>, ticks: nat)

  const INIT := State([], 0)

  datatype Side = AtClient | AtServer

  /** The server accepts a client, under the first free id or in vain; or one end of a connection takes a step. */
  datatype Step = Accept(tick: nat) | AcceptInVain(tick: nat) | At(c: nat, side: Side, a: Action)

  /** The clients in the server's list, newest first. */
  function Live(conns: seq<Conn>): (ss: seq<Slot>) {
    if conns == [] then []
    else
      var last := conns[|conns| - 1];
      (if last.server.open && last.tick > 0 then [Slot(CidOf(last.tick), last.tick)] else [])
      + Live(conns[..|conns| - 1])
  }

  /** The connection a client id finds: the newest open one that has it; the number of connections if there is none. */
  function Route(conns: seq<Conn>, cid: int): (c: nat)
    ensures c <= |conns|
    decreases |conns|
  {
    if conns == [] then 0
    else
      var n := |conns| - 1;
      if conns[n].server.open && conns[n].tick > 0 && CidOf(conns[n].tick) == cid then n
      else
        var c := Route(conns[..n], cid);
        if c < n then c else n + 1
  }

  function EndOf(x: Conn, side: Side): (e: End) {
    if side.AtClient? then x.client else x.server
  }

  function WithEnd(x: Conn, side: Side, e: End): (r: Conn) {
    if side.AtClient? then x.(client := e) else x.(server := e)
  }

  function Other(side: Side): (s: Side) {
    if side.AtClient? then AtServer else AtClient
  }

  /** What the end on this side knows its peer as. */
  function PeerId(x: Conn, side: Side): (id: u16) {
    if side.AtServer? && x.tick > 0 then CidOf(x.tick) else 0
  }

  ghost predicate CanStep(s: State, step: Step) {
    match step
    case Accept(tick) => Given(s, tick)
    case AcceptInVain(tick) => Given(s, tick)
    case At(c, side, a) =>
      && c < |s.conns| && Enabled(EndOf(s.conns[c], side), a)
      // the server answers through its list, whatever became of the client; a client needs its own end
      && (side.AtClient? && a.Respond? ==> s.conns[c].client.open)
  }

  /** The search for an id stops at the first one no live client holds. */
  ghost predicate Given(s: State, tick: nat) {
    && tick > s.ticks
    && CidOf(tick) !in Cids(Live(s.conns))
    && AllHeld(s.ticks, tick - 1, Cids(Live(s.conns)))
  }

  /** Messages put into the inbox of one end. */
  function Deliver(x: Conn, side: Side, ms: seq<Message>): (r: Conn) {
    var e := EndOf(x, side);
    WithEnd(x, side, e.(inbox := e.inbox + ms))
  }

  /** Where what an end sends goes: the server routes an answer by the client id in its sequence number. */
  function Destination(s: State, c: nat, side: Side, a: Action): (d: nat)
    requires c < |s.conns| && Enabled(EndOf(s.conns[c], side), a)
  {
    if side.AtServer? && a.Respond?
    then Route(s.conns, ClientId(EndOf(s.conns[c], side).received[a.i].seqNum))
    else c
  }

  function Next(s: State, step: Step): (r: State)
    requires CanStep(s, step)
  {
    match step
    case Accept(tick) => State(s.conns + [Conn(tick, FRESH, FRESH)], tick)
    case AcceptInVain(tick) => s.(ticks := tick)
    case At(c, side, a) =>
      var x := s.conns[c];
      var moved := s.conns[c := WithEnd(x, side, Act(EndOf(x, side), a, PeerId(x, side)))];
      var d := Destination(s, c, side, a);
      if d < |moved|
      then s.(conns := moved[d := Deliver(moved[d], Other(side), Outgoing(EndOf(x, side), a, c))])
      else s.(conns := moved)
  }

  /** Ticks only grow, and no client still live when a later one was accepted has its id. */
  ghost predicate TicksOk(s: State) {
    && (forall c :: 0 <= c < |s.conns| ==> 1 <= s.conns[c].tick <= s.ticks)
    && (forall b, c :: 0 <= b < c < |s.conns| ==> s.conns[b].tick < s.conns[c].tick)
    && (forall b, c :: 0 <= b < c < |s.conns| && s.conns[b].server.open ==>
          CidOf(s.conns[b].tick) != CidOf(s.conns[c].tick))
  }

  ghost predicate ConnOk(x: Conn, c: nat) {
    && x.tick > 0
    && EndOk(x.client, c, 0, x.server.asked)
    && EndOk(x.server, c, CidOf(x.tick), x.client.asked)
  }

  /** What holds in every state of every run. */
  ghost predicate Orderly(s: State) {
    && TicksOk(s)
    && forall c :: 0 <= c < |s.conns| ==> ConnOk(s.conns[c], c)
  }

  lemma {:induction false} LiveHasOpen(conns: seq<Conn>, c: nat)
    requires c < |conns| && conns[c].server.open && conns[c].tick > 0
    ensures CidOf(conns[c].tick) in Cids(Live(conns))
    decreases |conns|
  {
    hide CidOf;
    var n := |conns| - 1;
    if c < n {
      LiveHasOpen(conns[..n], c);
      assert forall s <- Live(conns[..n]) :: s in Live(conns);
    } else {
      assert Live(conns)[0] in Live(conns);
    }
  }

  /** The route leads to an open connection with the id, if there is one. */
  lemma {:induction false} RouteFinds(conns: seq<Conn>, cid: int)
    ensures var c := Route(conns, cid);
      c < |conns| ==> conns[c].server.open && conns[c].tick > 0 && CidOf(conns[c].tick) == cid
    ensures Route(conns, cid) == |conns| ==>
      forall b :: 0 <= b < |conns| && conns[b].server.open && conns[b].tick > 0 ==> CidOf(conns[b].tick) != cid
    decreases |conns|
  {
    if conns != [] {
      RouteFinds(conns[..|conns| - 1], cid);
    }
  }

  /** The id of closed connection c leads to another client: one that is live was accepted whole rounds later. */
  ghost predicate Reassigned(s: State, c: nat)
    requires c < |s.conns|
  {
    && !s.conns[c].server.open
    && exists d :: (&& c < d < |s.conns| && s.conns[d].server.open
                    && (s.conns[d].tick - s.conns[c].tick) % CLIENT_IDS == 0)
  }

  /**
   Routing, however old the client: the id of connection c leads to c itself while it is open.
   Once it is closed the id leads nowhere, or exactly if it is reassigned to another client.
   */
  lemma RouteOfConn(s: State, c: nat)
    requires TicksOk(s) && c < |s.conns|
    ensures var d := Route(s.conns, CidOf(s.conns[c].tick));
      && (s.conns[c].server.open ==> d == c)
      && (!s.conns[c].server.open && !Reassigned(s, c) ==> d == |s.conns|)
      && (Reassigned(s, c) ==> c < d < |s.conns|)
  {
    hide CidOf;
    var tick := s.conns[c].tick;
    RouteFinds(s.conns, CidOf(tick));
    forall d | c < d < |s.conns|
      ensures CidOf(s.conns[d].tick) == CidOf(tick) <==> (s.conns[d].tick - tick) % CLIENT_IDS == 0
    {
      CidRepeatsIff(tick, s.conns[d].tick);
    }
  }

  lemma CidRepeatsIff(a: nat, b: nat)
    requires 0 < a <= b
    ensures CidOf(a) == CidOf(b) <==> (b - a) % CLIENT_IDS == 0
  {
    NthRepeatsIff(a, b, CLIENT_IDS);
  }

  /** Until the counter has gone full circle since a client was accepted, its id is not reassigned. */
  lemma NotReassignedSoon(s: State, c: nat)
    requires TicksOk(s) && c < |s.conns| && s.ticks - s.conns[c].tick < CLIENT_IDS
    ensures !Reassigned(s, c)
  {
    forall d | c < d < |s.conns| ensures (s.conns[d].tick - s.conns[c].tick) % CLIENT_IDS != 0 {
      NthRepeatsIff(s.conns[c].tick, s.conns[d].tick, CLIENT_IDS);
    }
  }

  lemma AcceptKeepsOrderly(s: State, tick: nat)
    requires Orderly(s) && Given(s, tick)
    ensures Orderly(Next(s, Accept(tick))) && Orderly(Next(s, AcceptInVain(tick)))
  {
    hide EndOk, CidOf, Live, Cids;
    var n := |s.conns|;
    forall b | 0 <= b < n && s.conns[b].server.open ensures CidOf(s.conns[b].tick) != CidOf(tick) {
      LiveHasOpen(s.conns, b);
    }
    FreshEnd(n, 0, map[]);
    FreshEnd(n, CidOf(tick), map[]);
  }

  /** The word a server's application was given carries the id of the client it came from. */
  lemma HeardWord(s: State, c: nat, i: nat)
    requires Orderly(s) && c < |s.conns| && i < |s.conns[c].server.received|
    ensures s.conns[c].tick > 0 && ClientId(s.conns[c].server.received[i].seqNum) == CidOf(s.conns[c].tick)
  {
    hide CidOf, Ordered, RepliesOk;
    var x := s.conns[c];
    assert ConnOk(x, c);
    ReceivedAt(x.server, c, CidOf(x.tick), x.client.asked, i);
  }

  lemma ActKeepsOpen(e: End, a: Action, id: u16)
    requires Enabled(e, a)
    ensures Act(e, a, id).open ==> e.open
  {
  }

  /** One end moves. */
  function Moved(x: Conn, side: Side, a: Action): (r: Conn)
    requires Enabled(EndOf(x, side), a)
  {
    WithEnd(x, side, Act(EndOf(x, side), a, PeerId(x, side)))
  }

  /** One end moves: the connection stays in order, and what the end sends is in order for the other one. */
  lemma MovedOk(x: Conn, c: nat, side: Side, a: Action)
    requires ConnOk(x, c) && Enabled(EndOf(x, side), a)
    ensures var y := Moved(x, side, a);
      && ConnOk(y, c) && y.tick == x.tick && (y.server.open ==> x.server.open)
      && MailFor(y, c, Other(side), Outgoing(EndOf(x, side), a, c))
    ensures a.Respond? ==> MailForOthers(c, Outgoing(EndOf(x, side), a, c))
  {
    hide EndOk, Act, Outgoing, Enabled, CidOf, MessageOk;
    var e, p := EndOf(x, side), EndOf(x, Other(side));
    var id, other := PeerId(x, side), PeerId(x, Other(side));
    ActKeeps(e, a, c, id, p.asked);
    ActKeepsOpen(e, a, id);
    SendsInOrder(e, a, c, id, p.asked);
    var r := Act(e, a, id);
    MailInOrder(Outgoing(e, a, c), c, p.asked, e.asked, r.asked);
    PeerMoves(p, c, other, e.asked, r.asked, []);
    assert p.inbox + [] == p.inbox;
  }

  /** Messages that are in order for one end of connection c. */
  ghost predicate MailFor(x: Conn, c: nat, side: Side, ms: seq<Message>) {
    forall m <- ms :: MessageOk(m, c, EndOf(x, side).asked, EndOf(x, Other(side)).asked)
  }

  /** Answers of connection c, which are in order wherever else they come. */
  ghost predicate MailForOthers(c: nat, ms: seq<Message>) {
    forall m <- ms, d, mine, theirs | d != c :: MessageOk(m, d, mine, theirs)
  }

  lemma MailInOrder(ms: seq<Message>, c: nat, mine: Requests, theirs: Requests, more: Requests)
    requires forall m <- ms :: MessageOk(m, c, mine, theirs)
    requires Extends(theirs, more)
    ensures forall m <- ms :: MessageOk(m, c, mine, more)
  {
  }

  lemma DeliveredOk(x: Conn, c: nat, side: Side, ms: seq<Message>)
    requires ConnOk(x, c) && MailFor(x, c, side, ms)
    ensures ConnOk(Deliver(x, side, ms), c)
    ensures Deliver(x, side, ms).tick == x.tick && Deliver(x, side, ms).server.open == x.server.open
  {
    hide EndOk, CidOf, MessageOk;
    var mine, theirs := EndOf(x, side), EndOf(x, Other(side)).asked;
    PeerMoves(mine, c, PeerId(x, side), theirs, theirs, ms);
  }

  lemma MoveKeepsOrderly(s: State, c: nat, side: Side, a: Action)
    requires Orderly(s) && CanStep(s, At(c, side, a))
    ensures Orderly(Next(s, At(c, side, a)))
  {
    hide ConnOk, Act, Outgoing, Enabled, CidOf, Deliver, Moved, MailFor, MailForOthers, Route;
    var x, d := s.conns[c], Destination(s, c, side, a);
    MovedOk(x, c, side, a);
    MovedHere(s, c, side, a);
    var moved, ms := s.conns[c := Moved(x, side, a)], Outgoing(EndOf(x, side), a, c);
    if d < |moved| {
      if d != c {
        ForAnother(moved[d], c, d, Other(side), ms);
      }
      DeliveredOk(moved[d], d, Other(side), ms);
    }
  }

  lemma ForAnother(x: Conn, c: nat, d: nat, side: Side, ms: seq<Message>)
    requires MailForOthers(c, ms) && d != c
    ensures MailFor(x, d, side, ms)
  {
    hide MessageOk;
  }

  lemma MovedHere(s: State, c: nat, side: Side, a: Action)
    requires CanStep(s, At(c, side, a))
    ensures Enabled(EndOf(s.conns[c], side), a)
    ensures var x, d := s.conns[c], Destination(s, c, side, a);
      var moved := s.conns[c := Moved(x, side, a)];
      Next(s, At(c, side, a)).ticks == s.ticks &&
      Next(s, At(c, side, a)).conns ==
        if d < |moved| then moved[d := Deliver(moved[d], Other(side), Outgoing(EndOf(x, side), a, c))] else moved
  {
    hide Act, Outgoing, Enabled, Destination, CidOf;
  }

  lemma DeliverNothing(x: Conn, side: Side)
    ensures Deliver(x, side, []) == x
  {
  }

  lemma AcceptGiven(s: State, step: Step)
    requires CanStep(s, step) && !step.At?
    ensures Given(s, step.tick)
  {
  }

  lemma StepKeepsOrderly(s: State, step: Step)
    requires Orderly(s) && CanStep(s, step)
    ensures Orderly(Next(s, step))
  {
    hide Orderly, CanStep, Next;
    match step
    case Accept(tick) => AcceptGiven(s, step); AcceptKeepsOrderly(s, tick);
    case AcceptInVain(tick) => AcceptGiven(s, step); AcceptKeepsOrderly(s, tick);
    case At(c, side, a) => MoveKeepsOrderly(s, c, side, a);
  }

  /** A run: any steps the code can take one after another. */
  ghost predicate CanRun(s: State, steps: seq<Step>)
    decreases |steps|
  {
    steps == [] || (CanStep(s, steps[0]) && CanRun(Next(s, steps[0]), steps[1..]))
  }

  ghost function Run(s: State, steps: seq<Step>): (r: State)
    requires CanRun(s, steps)
    decreases |steps|
  {
    if steps == [] then s else Run(Next(s, steps[0]), steps[1..])
  }

  lemma {:induction false} RunKeepsOrderly(s: State, steps: seq<Step>)
    requires Orderly(s) && CanRun(s, steps)
    ensures Orderly(Run(s, steps))
    decreases |steps|
  {
    hide Orderly, CanStep, Next;
    if steps != [] {
      StepKeepsOrderly(s, steps[0]);
      RunKeepsOrderly(Next(s, steps[0]), steps[1..]);
    }
  }

  /** In every state of every run both ends of every connection are in order, and so are ids and ticks. */
  lemma RunsAreOrderly(steps: seq<Step>)
    requires CanRun(INIT, steps)
    ensures Orderly(Run(INIT, steps))
  {
    RunKeepsOrderly(INIT, steps);
  }
}
