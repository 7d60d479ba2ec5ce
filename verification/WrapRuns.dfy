/**
 What goes wrong without the hypotheses: for each promise that depends on ids not coming
 round again, a run of the code in which they do and it is broken.
 */
module WrapRuns {
  import opened Bytes
  import opened SeqNum
  import opened RequestTable
  import opened ClientIds
  import opened Endpoint
  import opened Protocol

  ghost predicate Leads(steps: seq<Step>, s: State) {
    CanRun(INIT, steps) && Run(INIT, steps) == s
  }

  lemma {:induction false} RunSnoc(s: State, steps: seq<Step>, step: Step)
    requires CanRun(s, steps) && CanStep(Run(s, steps), step)
    ensures CanRun(s, steps + [step]) && Run(s, steps + [step]) == Next(Run(s, steps), step)
    decreases |steps|
  {
    hide CanStep, Next;
    if steps == [] {
      assert steps + [step] == [step] && [step][1..] == [];
      assert CanRun(Next(s, step), []) && Run(Next(s, step), []) == Next(s, step);
    } else {
      assert (steps + [step])[1..] == steps[1..] + [step];
      RunSnoc(Next(s, steps[0]), steps[1..], step);
    }
  }

  lemma Then(before: seq<Step>, s: State, step: Step) returns (steps: seq<Step>, r: State)
    requires Leads(before, s) && CanStep(s, step)
    ensures Leads(steps, r) && r == Next(s, step)
  {
    hide CanRun, Run, CanStep, Next;
    RunSnoc(INIT, before, step);
    steps, r := before + [step], Next(s, step);
  }

  /** A step of one end whose messages, if any, go to the other end of its connection. */
  lemma ThenAt(before: seq<Step>, s: State, c: nat, side: Side, a: Action) returns (steps: seq<Step>, r: State)
    requires Leads(before, s) && CanStep(s, At(c, side, a))
    requires Destination(s, c, side, a) == c
    ensures Leads(steps, r) && r.ticks == s.ticks && |r.conns| == |s.conns|
    ensures var x := s.conns[c];
      r.conns == s.conns[c := Deliver(Moved(x, side, a), Other(side), Outgoing(EndOf(x, side), a, c))]
  {
    hide Leads, Act, Outgoing, Destination, Moved, Deliver;
    MovedHere(s, c, side, a);
    steps, r := Then(before, s, At(c, side, a));
  }

  /** Ids used up in vain at an end, n times. */
  function AfterVain(e: End, n: nat): (r: End)
    ensures r.open == e.open && r.table == e.table.(issued := e.table.issued + n)
    ensures r.asked == e.asked && r.unsent == e.unsent && r.received == e.received
    ensures r.inbox == e.inbox && r.due == e.due && r.ran == e.ran
  {
    if n == 0 then e
    else
      var d := AfterVain(e, n - 1);
      d.(table := RequestTable.RegisterInVain(d.table), fate := d.fate[d.table.issued + 1 := InVain])
  }

  lemma {:induction false} ThenVain(before: seq<Step>, s: State, c: nat, n: nat) returns (steps: seq<Step>, r: State)
    requires Leads(before, s) && c < |s.conns| && s.conns[c].client.open
    ensures Leads(steps, r) && r.ticks == s.ticks
    ensures r.conns == s.conns[c := s.conns[c].(client := AfterVain(s.conns[c].client, n))]
  {
    hide Leads, AfterVain;
    if n == 0 {
      steps, r := before, s;
      AfterNone(s.conns[c].client);
    } else {
      steps, r := ThenVain(before, s, c, n - 1);
      VainStep(s.conns[c], r.conns[c], n);
      steps, r := ThenAt(steps, r, c, AtClient, RegisterInVain);
    }
  }

  lemma AfterNone(e: End)
    ensures AfterVain(e, 0) == e
  {
  }

  lemma VainStep(x: Conn, y: Conn, n: nat)
    requires n > 0 && x.client.open && y == x.(client := AfterVain(x.client, n - 1))
    ensures y.client.open && Outgoing(y.client, RegisterInVain, 0) == []
    ensures Deliver(Moved(y, AtClient, RegisterInVain), AtServer, []) == x.(client := AfterVain(x.client, n))
  {
  }

  /** Client ids used up in vain while no client is live, n times. */
  lemma {:induction false} ThenVainAccepts(before: seq<Step>, s: State, n: nat) returns (steps: seq<Step>, r: State)
    requires Leads(before, s) && Live(s.conns) == []
    ensures Leads(steps, r) && r == s.(ticks := s.ticks + n)
  {
    hide Leads;
    if n == 0 {
      steps, r := before, s;
    } else {
      steps, r := ThenVainAccepts(before, s, n - 1);
      steps, r := Then(steps, r, AcceptInVain(r.ticks + 1));
    }
  }

  lemma IdsOnceRound()
    ensures IdOf(1) == 1 && IdOf(32768) == 1 && CidOf(1) == 1 && CidOf(65536) == 1
  {
  }

  /** A client is accepted and makes a request. */
  lemma OneAsks(p: seq<byte>) returns (steps: seq<Step>, s: State)
    ensures Leads(steps, s) && s.ticks == 1 && |s.conns| == 1
    ensures var x := s.conns[0];
      && x.tick == 1 && x.server == FRESH
      && x.client.open && x.client.table == Table(1, [Entry(1, 1)], {1})
      && x.client.asked == map[1 := p] && x.client.unsent == {1} && x.client.inbox == [] && x.client.due == []
  {
    hide CidOf, IdOf;
    IdsOnceRound();
    assert Leads([], INIT);
    steps, s := Then([], INIT, Accept(1));
    steps, s := ThenAt(steps, s, 0, AtClient, Register(p));
  }

  /** The request waiting as k is sent and answered; the answer is on its way. */
  lemma AskAndAnswer(before: seq<Step>, s: State, k: nat, p: seq<byte>, q: seq<byte>)
    returns (steps: seq<Step>, r: State)
    requires Leads(before, s) && s.ticks == 1 && |s.conns| == 1
    requires k > 0 && IdOf(k) == 1
    requires var x := s.conns[0];
      && x.tick == 1 && x.server == FRESH && x.client.open && x.client.inbox == []
      && k in x.client.unsent && k in x.client.asked && x.client.asked[k] == p
    ensures Leads(steps, r) && r.ticks == 1 && |r.conns| == 1
    ensures var x, y := s.conns[0].client, r.conns[0].client;
      && y.open && y.table == x.table && y.due == x.due && y.asked == x.asked
      && y.inbox == [Message(0x1_0001, q, Answers(0, k, p))]
  {
    hide CidOf, IdOf, Leads;
    IdsOnceRound();
    steps, r := ThenAt(before, s, 0, AtClient, Transmit(k));
    assert r.conns[0].server.inbox == [Message(0x8001, p, Asks(k))];
    steps, r := ThenAt(steps, r, 0, AtServer, Receive);
    assert r.conns[0].server.received == [Message(0x1_0001, p, Asks(k))];
    steps, r := ThenAt(steps, r, 0, AtServer, Respond(0, q));
  }

  /** A request waits while the counter goes once round, and another is made under the same id. */
  lemma TwoUnderOneId(p: seq<byte>, p': seq<byte>) returns (steps: seq<Step>, s: State)
    ensures Leads(steps, s) && s.ticks == 1 && |s.conns| == 1
    ensures var x := s.conns[0];
      && x.tick == 1 && x.server == FRESH && x.client.open && x.client.inbox == [] && x.client.due == []
      && x.client.table == Table(32768, [Entry(1, 32768), Entry(1, 1)], {1, 32768})
      && x.client.asked == map[1 := p, 32768 := p'] && x.client.unsent == {1, 32768}
  {
    hide CidOf, IdOf, Leads, AfterVain;
    IdsOnceRound();
    steps, s := OneAsks(p);
    steps, s := ThenVain(steps, s, 0, REQUEST_IDS - 1);
    steps, s := ThenAt(steps, s, 0, AtClient, Register(p'));
  }

  /** The newer of the two goes, whichever of them times out. */
  lemma NewerGoes(t: Table)
    requires t == Table(32768, [Entry(1, 32768), Entry(1, 1)], {1, 32768})
    ensures Cancel(t, 1) == Table(32768, [Entry(1, 1)], {32768})
    ensures Cancel(t, 32768) == Table(32768, [Entry(1, 1)], {1})
  {
    hide IdOf;
    IdsOnceRound();
    assert t.timers - {1} == {32768} && t.timers - {32768} == {1};
  }

  /**
   When the counter has gone once round, the timeout of request 1 removes request 32768,
   which has the same id, and leaves request 1 in the list without a timer.
   */
  lemma TimeoutAfterWrapRemovesAnother(p: seq<byte>) returns (steps: seq<Step>, s: State)
    ensures Leads(steps, s) && |s.conns| == 1
    ensures var t := s.conns[0].client.table; t.pending == [Entry(1, 1)] && t.timers == {32768} && !Valid(t)
  {
    hide CidOf, IdOf, Leads, Cancel;
    steps, s := TwoUnderOneId(p, p);
    NewerGoes(s.conns[0].client.table);
    steps, s := ThenAt(steps, s, 0, AtClient, Fire(1));
    assert Entry(1, 1) in s.conns[0].client.table.pending;
    assert 1 in Issues(s.conns[0].client.table.pending);
  }

  /** An answer that comes after its request timed out and the counter went round is given to a newer request. */
  lemma LateAnswerReachesNewer(p: seq<byte>, q: seq<byte>) returns (steps: seq<Step>, s: State, msg: Message)
    ensures Leads(steps, s) && |s.conns| == 1
    ensures msg.payload == q && msg.tag == Answers(0, 1, p)
    ensures s.conns[0].client.due == [TimedOut(1), Replied(32768, msg)]
  {
    hide CidOf, IdOf, Leads, AfterVain;
    IdsOnceRound();
    steps, s := OneAsks(p);
    steps, s := AskAndAnswer(steps, s, 1, p, q);
    steps, s := ThenAt(steps, s, 0, AtClient, Fire(1));
    steps, s := ThenVain(steps, s, 0, REQUEST_IDS - 1);
    steps, s := ThenAt(steps, s, 0, AtClient, Register([]));
    msg := s.conns[0].client.inbox[0];
    assert s.conns[0].client.table.pending == [Entry(1, 32768)];
    steps, s := ThenAt(steps, s, 0, AtClient, Receive);
  }

  /**
   A request that waited for a whole round gets the answer to the newer one with its id, if
   that one timed out - though no request was issued since, and the table is valid.
   */
  lemma AnswerReachesOlder(p: seq<byte>, p': seq<byte>, q: seq<byte>) returns (steps: seq<Step>, s: State, msg: Message)
    ensures Leads(steps, s) && |s.conns| == 1 && s.conns[0].client.table.issued == 32768
    ensures msg.payload == q && msg.tag == Answers(0, 32768, p')
    ensures s.conns[0].client.due == [TimedOut(32768), Replied(1, msg)]
  {
    hide CidOf, IdOf, Leads, Cancel;
    IdsOnceRound();
    steps, s := TwoUnderOneId(p, p');
    steps, s := AskAndAnswer(steps, s, 32768, p', q);
    NewerGoes(s.conns[0].client.table);
    steps, s := ThenAt(steps, s, 0, AtClient, Fire(32768));
    msg := s.conns[0].client.inbox[0];
    steps, s := ThenAt(steps, s, 0, AtClient, Receive);
  }

  /** A client asks, and is gone when its request has arrived; then its id is given out again. */
  lemma IdGivenAgain(p: seq<byte>) returns (steps: seq<Step>, s: State)
    ensures Leads(steps, s) && |s.conns| == 2 && s.ticks == 65536
    ensures var x := s.conns[0];
      x.tick == 1 && !x.server.open && x.server.received == [Message(0x1_0001, p, Asks(1))]
    ensures s.conns[1] == Conn(65536, FRESH, FRESH)
  {
    hide CidOf, IdOf, Leads;
    IdsOnceRound();
    steps, s := OneAsks(p);
    steps, s := ThenAt(steps, s, 0, AtClient, Transmit(1));
    steps, s := ThenAt(steps, s, 0, AtServer, Receive);
    assert s.conns[0].server.received == [Message(0x1_0001, p, Asks(1))];
    steps, s := ThenAt(steps, s, 0, AtServer, Close);
    assert Live(s.conns) == [];
    steps, s := ThenVainAccepts(steps, s, CLIENT_IDS - 1);
    steps, s := Then(steps, s, Accept(65536));
  }

  /**
   An answer to a client that has gone, given when the counter of client ids has gone round,
   is led to the client that has its id now, and there to that client's own request.
   */
  lemma AnswerReachesAnotherClient(p: seq<byte>, q: seq<byte>) returns (steps: seq<Step>, s: State, msg: Message)
    ensures Leads(steps, s) && |s.conns| == 2
    ensures msg.payload == q && msg.tag == Answers(0, 1, p)
    ensures s.conns[1].client.due == [Replied(1, msg)]
  {
    hide CidOf, IdOf, Leads;
    IdsOnceRound();
    steps, s := IdGivenAgain(p);
    steps, s := ThenAt(steps, s, 1, AtClient, Register([]));
    assert s.conns[1].client.table.pending == [Entry(1, 1)];
    assert Route(s.conns, 1) == 1;
    steps, s := Then(steps, s, At(0, AtServer, Respond(0, q)));
    msg := Message(0x1_0001, q, Answers(0, 1, p));
    assert s.conns[1].client.inbox == [msg];
    steps, s := ThenAt(steps, s, 1, AtClient, Receive);
  }
}
