/** Client ids and routing over every run of a server with any number of clients, and a run that completes a request. */
module ProtocolTheorems {
  import opened Bytes
  import opened SeqNum
  import opened RequestTable
  import opened ClientIds
  import opened Endpoint
  import opened EndpointTheorems
  import opened Protocol
  import opened RequestRuns

  lemma {:induction false} LiveMember(conns: seq<Conn>, x: Slot) returns (c: nat)
    requires x in Live(conns)
    ensures c < |conns| && conns[c].server.open && conns[c].tick > 0 && x == Slot(CidOf(conns[c].tick), conns[c].tick)
    decreases |conns|
  {
    hide CidOf;
    var n := |conns| - 1;
    if x in Live(conns[..n]) {
      c := LiveMember(conns[..n], x);
    } else {
      c := n;
    }
  }

  lemma {:induction false} LiveDistinct(conns: seq<Conn>, ticks: nat)
    requires TicksOk(State(conns, ticks))
    ensures Distinct(Live(conns), ticks)
    decreases |conns|
  {
    hide CidOf;
    if conns != [] {
      var n := |conns| - 1;
      var rest := conns[..n];
      LiveDistinct(rest, ticks);
      forall x | x in Live(rest) ensures x.cid != CidOf(conns[n].tick) {
        var c := LiveMember(rest, x);
      }
    }
  }

  /** The ids of the clients in the server's list are pairwise distinct and nonzero, in every state of every run. */
  lemma LiveIdsDistinct(steps: seq<Step>)
    requires CanRun(INIT, steps)
    ensures var s := Run(INIT, steps); Distinct(Live(s.conns), s.ticks)
    ensures forall x <- Live(Run(INIT, steps).conns) :: 1 <= x.cid <= CLIENT_IDS
  {
    RunsAreOrderly(steps);
    var s := Run(INIT, steps);
    LiveDistinct(s.conns, s.ticks);
  }

  /** A step of the run went past tick t: gave the id out, used it up in vain, or found a live client holding it. */
  ghost predicate Accounted(s: State, steps: seq<Step>, t: nat)
    requires CanRun(s, steps) && t > 0
    decreases |steps|
  {
    steps != [] && (PassedBy(s, steps[0], t) || Accounted(Next(s, steps[0]), steps[1..], t))
  }

  ghost predicate PassedBy(s: State, step: Step, t: nat)
    requires t > 0
  {
    && !step.At?
    && s.ticks < t <= step.tick
    && (t == step.tick || CidOf(t) in Cids(Live(s.conns)))
  }

  lemma {:induction false} TicksAccounted(s: State, steps: seq<Step>, t: nat)
    requires CanRun(s, steps) && s.ticks < t <= Run(s, steps).ticks
    ensures Accounted(s, steps, t)
    decreases |steps|
  {
    hide CidOf, Live, Cids, Enabled, Act, Outgoing, Destination;
    if steps != [] && Next(s, steps[0]).ticks < t {
      TicksAccounted(Next(s, steps[0]), steps[1..], t);
    }
  }

  /**
   Between two clients of a run that were given the same id, every other id was given to a
   client, or used up in vain, or found held by a live client.
   */
  lemma FullCircleBetween(steps: seq<Step>, b: nat, c: nat, id: int) returns (t: nat)
    requires CanRun(INIT, steps) && 1 <= id <= CLIENT_IDS
    requires var conns := Run(INIT, steps).conns;
      && b < c < |conns| && conns[b].tick > 0 && conns[c].tick > 0
      && CidOf(conns[b].tick) == CidOf(conns[c].tick)
    ensures var conns := Run(INIT, steps).conns;
      conns[b].tick < t <= conns[c].tick && CidOf(t) == id && Accounted(INIT, steps, t)
  {
    hide CidOf, Accounted, CanRun, Run;
    RunsAreOrderly(steps);
    var conns := Run(INIT, steps).conns;
    t := FullCircle(conns[b].tick, conns[c].tick, id);
    TicksAccounted(INIT, steps, t);
  }

  /**
   An answer the server's application gives goes to the connection its request came from, if
   that is open, however old its client is.  If it is closed the answer is refused and nothing
   happens, unless the client's id is reassigned by then.
   */
  lemma AnswersGoHome(s: State, c: nat, i: nat, payload: seq<byte>)
    requires Orderly(s) && CanStep(s, At(c, AtServer, Respond(i, payload))) && !Reassigned(s, c)
    ensures var m := s.conns[c].server.received[i];
      var answer := Message(m.seqNum, payload, Answers(c, m.tag.issue, m.payload));
      var client := s.conns[c].client;
      Next(s, At(c, AtServer, Respond(i, payload))) ==
        if s.conns[c].server.open
        then s.(conns := s.conns[c := s.conns[c].(client := client.(inbox := client.inbox + [answer]))])
        else s
  {
    hide ConnOk, CidOf, Route, Reassigned;
    var x := s.conns[c];
    HeardWord(s, c, i);
    RouteOfConn(s, c);
    assert s.conns[c := x] == s.conns;
  }

  /** In every run, an answer is led to another client exactly when its client's id is reassigned. */
  lemma MisroutedIff(steps: seq<Step>, c: nat, i: nat, payload: seq<byte>)
    requires CanRun(INIT, steps)
    requires var s := Run(INIT, steps); c < |s.conns| && Enabled(s.conns[c].server, Respond(i, payload))
    ensures var s := Run(INIT, steps);
      Destination(s, c, AtServer, Respond(i, payload)) !in {c, |s.conns|} <==> Reassigned(s, c)
    ensures var s := Run(INIT, steps); s.ticks - s.conns[c].tick < CLIENT_IDS ==> !Reassigned(s, c)
  {
    hide CidOf, ConnOk, CanRun, Run, Reassigned;
    RunsAreOrderly(steps);
    var s := Run(INIT, steps);
    HeardWord(s, c, i);
    RouteOfConn(s, c);
    if s.ticks - s.conns[c].tick < CLIENT_IDS {
      NotReassignedSoon(s, c);
    }
  }

  /** What an end of an open connection sends goes to its own other end. */
  lemma StepOf(s: State, c: nat, side: Side, a: Action) returns (step: Step, r: State)
    requires Orderly(s) && CanStep(s, At(c, side, a)) && s.conns[c].server.open
    ensures step == At(c, side, a) && r == Next(s, step) && Orderly(r)
    ensures |r.conns| == |s.conns|
    ensures var x := s.conns[c];
      r.conns[c] == Deliver(Moved(x, side, a), Other(side), Outgoing(EndOf(x, side), a, c))
  {
    hide ConnOk, Act, Outgoing, CidOf, Route, Moved, Deliver;
    step, r := At(c, side, a), Next(s, At(c, side, a));
    if side.AtServer? && a.Respond? {
      HeardWord(s, c, a.i);
      RouteOfConn(s, c);
    }
    MovedHere(s, c, side, a);
    MoveKeepsOrderly(s, c, side, a);
  }

  lemma RunCons(s: State, step: Step, rest: seq<Step>)
    requires CanStep(s, step) && CanRun(Next(s, step), rest)
    ensures CanRun(s, [step] + rest) && Run(s, [step] + rest) == Run(Next(s, step), rest)
  {
    hide CanStep, Next;
    assert ([step] + rest)[1..] == rest;
  }

  /** Connection c is open at both ends. */
  ghost predicate Talking(s: State, c: nat) {
    Orderly(s) && c < |s.conns| && s.conns[c].client.open && s.conns[c].server.open
  }

  /** Request n waits at this end, with payload p, and its id is not pending twice. */
  ghost predicate Asked(e: End, n: nat, p: seq<byte>) {
    && Ledger(e) && InWindow(e.table)
    && n in e.asked && e.asked[n] == p && n in e.fate && e.fate[n].Waiting?
    && e.table.issued - n < REQUEST_IDS
  }

  lemma AskedFirst(e: End, p: seq<byte>)
    requires Ledger(e) && e.open && InWindow(RequestTable.Register(e.table))
    ensures var r := Act(e, Register(p), 0);
      Asked(r, e.table.issued + 1, p)
  {
    hide Ledger, InWindow, IdOf;
    LedgerIff(e, Register(p), 0);
  }

  lemma Registers(s: State, c: nat, end: Side, p: seq<byte>) returns (step: Step, r: State)
    requires Talking(s, c)
    requires var e := EndOf(s.conns[c], end); Ledger(e) && InWindow(RequestTable.Register(e.table))
    ensures CanStep(s, step) && r == Next(s, step) && Talking(r, c)
    ensures var x, y := s.conns[c], r.conns[c];
      var e, f, n := EndOf(x, end), EndOf(y, end), EndOf(x, end).table.issued + 1;
      && EndOf(y, Other(end)) == EndOf(x, Other(end))
      && Asked(f, n, p) && n in f.unsent && n > 0
      && f.inbox == e.inbox && f.due == e.due && f.ran == e.ran
  {
    hide CidOf, IdOf, Orderly, Ledger, InWindow, Destination, Next, Asked;
    AskedFirst(EndOf(s.conns[c], end), p);
    step, r := StepOf(s, c, end, Register(p));
  }

  lemma Transmits(s: State, c: nat, end: Side, n: nat, p: seq<byte>) returns (step: Step, r: State)
    requires Talking(s, c) && Asked(EndOf(s.conns[c], end), n, p)
    requires n > 0 && n in EndOf(s.conns[c], end).unsent
    ensures CanStep(s, step) && r == Next(s, step) && Talking(r, c)
    ensures var x, y := s.conns[c], r.conns[c];
      var o := EndOf(x, Other(end));
      && EndOf(y, Other(end)) == o.(inbox := o.inbox + [Message(RequestWord(IdOf(n)), p, Asks(n))])
      && Asked(EndOf(y, end), n, p)
      && EndOf(y, end).inbox == EndOf(x, end).inbox
      && EndOf(y, end).due == EndOf(x, end).due && EndOf(y, end).ran == EndOf(x, end).ran
  {
    hide CidOf, IdOf, Orderly, Ledger, InWindow, Destination, Next;
    SameLedger(EndOf(s.conns[c], end), Act(EndOf(s.conns[c], end), Transmit(n), 0));
    step, r := StepOf(s, c, end, Transmit(n));
  }

  lemma OtherReceives(s: State, c: nat, end: Side, n: nat, p: seq<byte>) returns (step: Step, r: State)
    requires Talking(s, c) && Asked(EndOf(s.conns[c], end), n, p)
    requires |EndOf(s.conns[c], Other(end)).inbox| == 1 && EndOf(s.conns[c], Other(end)).inbox[0].tag == Asks(n)
    ensures CanStep(s, step) && r == Next(s, step) && Talking(r, c)
    ensures var x, y := s.conns[c], r.conns[c];
      var o, q := EndOf(x, Other(end)), EndOf(y, Other(end));
      && EndOf(y, end) == EndOf(x, end)
      && |q.received| == |o.received| + 1
      && q.received[|o.received|].tag == Asks(n) && q.received[|o.received|].payload == p
  {
    hide CidOf, IdOf, Orderly, Ledger, InWindow, Destination, Next, Act, MailOk;
    var x := s.conns[c];
    OrderlyMail(s, c, Other(end));
    RequestArrives(EndOf(x, Other(end)), c, PeerId(x, Other(end)), EndOf(x, end).asked, n);
    step, r := StepOf(s, c, Other(end), Receive);
    DeliverNothing(Moved(x, Other(end), Receive), end);
  }

  lemma OrderlyMail(s: State, c: nat, side: Side)
    requires Orderly(s) && c < |s.conns|
    ensures var x := s.conns[c]; EndOk(EndOf(x, side), c, PeerId(x, side), EndOf(x, Other(side)).asked)
    ensures var x := s.conns[c]; MailOk(EndOf(x, side), c, PeerId(x, side), EndOf(x, Other(side)).asked)
  {
    hide MailOk, RepliesOk, Ordered, CidOf;
    assert ConnOk(s.conns[c], c);
  }

  lemma OtherAnswers(s: State, c: nat, end: Side, i: nat, q: seq<byte>) returns (step: Step, r: State)
    requires Talking(s, c)
    requires var o := EndOf(s.conns[c], Other(end)); i < |o.received| && o.received[i].tag.Asks?
    ensures CanStep(s, step) && r == Next(s, step) && Talking(r, c)
    ensures var x, y, m := s.conns[c], r.conns[c], EndOf(s.conns[c], Other(end)).received[i];
      var e := EndOf(x, end);
      && EndOf(y, Other(end)) == EndOf(x, Other(end))
      && EndOf(y, end) == e.(inbox := e.inbox + [Message(m.seqNum, q, Answers(c, m.tag.issue, m.payload))])
  {
    hide CidOf, IdOf, Orderly, Destination, Next;
    step, r := StepOf(s, c, Other(end), Respond(i, q));
  }

  lemma MailOnly(e: End, n: nat, p: seq<byte>, ms: seq<Message>)
    requires Asked(e, n, p)
    ensures Asked(e.(inbox := e.inbox + ms), n, p)
  {
    hide InWindow, Ledger;
    SameLedger(e, e.(inbox := e.inbox + ms));
  }

  lemma AnswerReceived(s: State, c: nat, end: Side, n: nat, p: seq<byte>, q: seq<byte>) returns (step: Step, r: State)
    requires Talking(s, c) && Asked(EndOf(s.conns[c], end), n, p)
    requires var e := EndOf(s.conns[c], end);
      |e.inbox| == 1 && e.inbox[0].payload == q && e.inbox[0].tag == Answers(c, n, p)
    ensures CanStep(s, step) && r == Next(s, step) && c < |r.conns|
    ensures var x, y := s.conns[c], r.conns[c];
      && EndOf(y, end).due == EndOf(x, end).due + [Replied(n, EndOf(x, end).inbox[0])]
      && EndOf(y, end).ran == EndOf(x, end).ran
      && EndOf(y, Other(end)) == EndOf(x, Other(end))
  {
    hide CidOf, IdOf, Orderly, Ledger, InWindow, Destination, Next, Act, EndOk;
    var x := s.conns[c];
    OrderlyMail(s, c, end);
    AnswerArrives(EndOf(x, end), c, PeerId(x, end), EndOf(x, Other(end)).asked);
    step, r := StepOf(s, c, end, Receive);
    DeliverNothing(Moved(x, end, Receive), Other(end));
  }

  /**
   A request made at either end of an open connection, however old, of a peer that answers it,
   comes back: its callback is run once with that answer, after all that were owed before, if
   the end that asks keeps its ledger and its id window.
   */
  lemma ExchangeCompletes(s: State, c: nat, end: Side, p: seq<byte>, q: seq<byte>)
    returns (steps: seq<Step>, r: State, cb: Callback)
    requires Talking(s, c) && s.conns[c].client.inbox == [] && s.conns[c].server.inbox == []
    requires var e := EndOf(s.conns[c], end); Ledger(e) && InWindow(RequestTable.Register(e.table))
    ensures CanRun(s, steps) && r == Run(s, steps) && c < |r.conns|
    ensures var e, f, n := EndOf(s.conns[c], end), EndOf(r.conns[c], end), EndOf(s.conns[c], end).table.issued + 1;
      && (exists m <- EndOf(r.conns[c], Other(end)).received :: m.payload == p && m.tag == Asks(n))
      && f.ran == e.ran + e.due + [cb] && f.due == []
      && cb.issue == n && cb.Replied? && cb.msg.payload == q && cb.msg.tag == Answers(c, n, p)
  {
    hide IdOf, InWindow, Ledger, Asked, Orderly, CanStep, Next, CanRun, Run;
    var n, i := EndOf(s.conns[c], end).table.issued + 1, |EndOf(s.conns[c], Other(end)).received|;
    var a, s1 := Registers(s, c, end, p);
    var b, s2 := Transmits(s1, c, end, n, p);
    var d, s3 := OtherReceives(s2, c, end, n, p);
    var f, s4 := OtherAnswers(s3, c, end, i, q);
    var e, mail := EndOf(s3.conns[c], end), EndOf(s4.conns[c], end).inbox;
    assert e.inbox + mail == mail;
    MailOnly(e, n, p, mail);
    var g, s5 := AnswerReceived(s4, c, end, n, p, q);
    assert EndOf(s5.conns[c], Other(end)).received[i].payload == p;
    var last;
    last, r := OwedAreRun(s5, c, end);
    cb := Replied(n, EndOf(s4.conns[c], end).inbox[0]);
    assert EndOf(r.conns[c], end).ran == EndOf(s.conns[c], end).ran + EndOf(s.conns[c], end).due + [cb];
    RunCons(s4, g, last);
    RunCons(s3, f, [g] + last);
    RunCons(s2, d, [f] + ([g] + last));
    RunCons(s1, b, [d] + ([f] + ([g] + last)));
    RunCons(s, a, [b] + ([d] + ([f] + ([g] + last))));
    steps := [a] + ([b] + ([d] + ([f] + ([g] + last))));
  }

  lemma RunNothing(s: State)
    ensures CanRun(s, []) && Run(s, []) == s
  {
  }

  /**
   What either end tells the other without being asked is given to the other's application,
   under no request id and the receiver's id for the sender, and owes nobody a callback.
   */
  lemma TellArrives(s: State, c: nat, end: Side, p: seq<byte>) returns (steps: seq<Step>, r: State)
    requires Talking(s, c) && EndOf(s.conns[c], Other(end)).inbox == []
    ensures CanRun(s, steps) && r == Run(s, steps) && c < |r.conns|
    ensures var x, y := s.conns[c], r.conns[c];
      var o := EndOf(x, Other(end));
      && EndOf(y, end) == EndOf(x, end)
      && EndOf(y, Other(end)) == o.(received := o.received + [Message(65536 * PeerId(x, Other(end)), p, Tells)])
  {
    hide CidOf, IdOf, Orderly, Destination, Next, CanRun, Run;
    var o := Other(end);
    var a, s1 := StepOf(s, c, end, Tell(p));
    assert EndOf(s1.conns[c], o).inbox == [Message(0, p, Tells)];
    Told(EndOf(s1.conns[c], o), p, PeerId(s1.conns[c], o));
    var b;
    b, r := StepOf(s1, c, o, Receive);
    DeliverNothing(Moved(s1.conns[c], o, Receive), end);
    RunNothing(r);
    RunCons(s1, b, []);
    RunCons(s, a, [b] + []);
    steps := [a] + ([b] + []);
  }

  lemma Told(e: End, p: seq<byte>, id: u16)
    requires e.open && e.inbox == [Message(0, p, Tells)]
    ensures Act(e, Receive, id)
      == e.(inbox := [], received := e.received + [Message(65536 * id, p, Tells)])
  {
    assert Classify(0) == Kind.Unsolicited && AppWord(0, id) == 65536 * id;
  }

  /**
   A request whose `sendmsg` fails leaves nothing behind: the end's pending requests, timers
   and callbacks are what they were, and the other end hears nothing of it.
   */
  lemma FailedSendLeavesNothing(s: State, c: nat, end: Side, p: seq<byte>) returns (steps: seq<Step>, r: State)
    requires Talking(s, c)
    requires var e := EndOf(s.conns[c], end); Ledger(e) && InWindow(RequestTable.Register(e.table))
    ensures CanRun(s, steps) && r == Run(s, steps) && c < |r.conns|
    ensures var x, y := s.conns[c], r.conns[c];
      var e, f := EndOf(x, end), EndOf(y, end);
      && EndOf(y, Other(end)) == EndOf(x, Other(end))
      && Ledger(f) && Issues(f.table.pending) == f.table.timers == e.table.timers
      && f.due == e.due && f.ran == e.ran
      && f.fate == e.fate[e.table.issued + 1 := SendFailed]
  {
    hide CidOf, IdOf, Orderly, Ledger, InWindow, Destination, Next, CanRun, Run;
    var n := EndOf(s.conns[c], end).table.issued + 1;
    RegisteredTimers(EndOf(s.conns[c], end), p);
    var a, s1 := StepOf(s, c, end, Register(p));
    var e1 := EndOf(s1.conns[c], end);
    ActKeepsWindow(e1, SendFails(n), 0);
    LedgerIff(e1, SendFails(n), PeerId(s1.conns[c], end));
    SendFailureSilent(e1, n, PeerId(s1.conns[c], end));
    var b;
    b, r := StepOf(s1, c, end, SendFails(n));
    DeliverNothing(Moved(s1.conns[c], end, SendFails(n)), Other(end));
    RunNothing(r);
    RunCons(s1, b, []);
    RunCons(s, a, [b] + []);
    steps := [a] + ([b] + []);
  }

  lemma RegisteredTimers(e: End, p: seq<byte>)
    requires Ledger(e) && e.open
    ensures var r, n := Act(e, Register(p), 0), e.table.issued + 1;
      && Ledger(r) && n in r.unsent && n in r.table.timers && r.table.timers - {n} == e.table.timers
      && r.fate == e.fate[n := Waiting] && r.due == e.due && r.ran == e.ran
  {
    hide IdOf, CallsOk;
    LedgerIff(e, Register(p), 0);
    TimersAreIssues(e.table);
  }

  /** The search for a free id from tick a, of which the ids up to b are held. */
  lemma {:induction false} NextFree(a: nat, b: nat, ss: seq<Slot>) returns (t: nat)
    requires |ss| < CLIENT_IDS && a <= b <= a + |ss| && AllHeld(a, b, Cids(ss))
    ensures a < t <= a + |ss| + 1 && CidOf(t) !in Cids(ss) && AllHeld(a, t - 1, Cids(ss))
    decreases a + |ss| - b
  {
    if CidOf(b + 1) in Cids(ss) {
      OneMoreHeld(a, b, Cids(ss));
      FreeIdSoon(a, b + 1, ss);
      t := NextFree(a, b + 1, ss);
    } else {
      t := b + 1;
    }
  }

  /** While fewer than 65535 clients are live, another can be accepted, under an id at most as many steps ahead. */
  lemma AcceptPossible(s: State) returns (tick: nat)
    requires |Live(s.conns)| < CLIENT_IDS
    ensures CanStep(s, Accept(tick)) && CanStep(s, AcceptInVain(tick))
    ensures s.ticks < tick <= s.ticks + |Live(s.conns)| + 1
  {
    tick := NextFree(s.ticks, s.ticks, Live(s.conns));
  }
}
