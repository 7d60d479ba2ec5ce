/**
 The requests of one connection end over whole runs of the system: what becomes of each, how
 often its callback runs, and whose answer the callback is given.
 */
module RequestRuns {
  import opened Bytes
  import opened SeqNum
  import opened RequestTable
  import opened ClientIds
  import opened Endpoint
  import opened EndpointTheorems
  import opened Protocol

  /** The step is one of this end's own. */
  predicate OwnStep(step: Step, z: nat, side: Side) {
    step.At? && step.c == z && step.side == side
  }

  /** A step is an end's own, or does no more to it than bring it mail. */
  lemma EndOver(s: State, step: Step, z: nat, side: Side) returns (ms: seq<Message>)
    requires CanStep(s, step) && z < |s.conns|
    ensures z < |Next(s, step).conns|
    ensures OwnStep(step, z, side) ==> Enabled(EndOf(s.conns[z], side), step.a)
    ensures var e, r := EndOf(s.conns[z], side), EndOf(Next(s, step).conns[z], side);
      r == if OwnStep(step, z, side) then Act(e, step.a, PeerId(s.conns[z], side)) else e.(inbox := e.inbox + ms)
  {
    hide Act, Outgoing, Enabled, Destination, CidOf;
    ms := [];
    var e := EndOf(s.conns[z], side);
    assert e.(inbox := e.inbox + []) == e;
    match step
    case At(c, mover, a) =>
      MovedHere(s, c, mover, a);
      if Destination(s, c, mover, a) == z && mover != side {
        ms := Outgoing(EndOf(s.conns[c], mover), a, c);
      }
    case _ =>
  }

  /** A connection that was not there before is fresh. */
  lemma NewConn(s: State, step: Step, z: nat, side: Side)
    requires CanStep(s, step) && |s.conns| <= z < |Next(s, step).conns|
    ensures EndOf(Next(s, step).conns[z], side) == FRESH
  {
    hide Act, Outgoing, Enabled, Destination, CidOf;
  }

  // ---- The ledger ----

  ghost predicate LedgerAt(s: State, z: nat, side: Side) {
    z < |s.conns| ==> Ledger(EndOf(s.conns[z], side))
  }

  /** The ledger of this end is in order in every state of the run. */
  ghost predicate AlwaysLedger(s: State, steps: seq<Step>, z: nat, side: Side)
    requires CanRun(s, steps)
    decreases |steps|
  {
    LedgerAt(s, z, side) && (steps != [] ==> AlwaysLedger(Next(s, steps[0]), steps[1..], z, side))
  }

  ghost predicate GuardedStep(s: State, step: Step, z: nat, side: Side)
    requires CanStep(s, step)
  {
    OwnStep(step, z, side) ==> HitsOwn(EndOf(s.conns[z], side), step.a)
  }

  /** Every timeout and send failure of this end finds no newer pending request with its id. */
  ghost predicate GuardedRun(s: State, steps: seq<Step>, z: nat, side: Side)
    requires CanRun(s, steps)
    decreases |steps|
  {
    steps == [] || (GuardedStep(s, steps[0], z, side) && GuardedRun(Next(s, steps[0]), steps[1..], z, side))
  }

  lemma StepLedgerIff(s: State, step: Step, z: nat, side: Side)
    requires LedgerAt(s, z, side) && CanStep(s, step)
    ensures LedgerAt(Next(s, step), z, side) <==> GuardedStep(s, step, z, side)
  {
    hide Ledger, Act, Next, CanStep, Enabled, HitsOwn, CidOf;
    if z < |s.conns| {
      var e := EndOf(s.conns[z], side);
      var ms := EndOver(s, step, z, side);
      if OwnStep(step, z, side) {
        LedgerIff(e, step.a, PeerId(s.conns[z], side));
      } else {
        SameLedger(e, e.(inbox := e.inbox + ms));
      }
    } else {
      NotOwn(s, step, z, side);
      if z < |Next(s, step).conns| {
        NewConn(s, step, z, side);
        FreshEnd(z, 0, map[]);
      }
    }
  }

  lemma NotOwn(s: State, step: Step, z: nat, side: Side)
    requires CanStep(s, step) && z >= |s.conns|
    ensures !OwnStep(step, z, side)
  {
  }

  /**
   Over all runs, whatever happens at any other end and however late any answer is: the ledger
   of an end is in order in every state exactly when none of its timeouts and send failures
   finds another request.
   */
  lemma {:induction false} LedgerIffGuarded(s: State, steps: seq<Step>, z: nat, side: Side)
    requires LedgerAt(s, z, side) && CanRun(s, steps)
    ensures AlwaysLedger(s, steps, z, side) <==> GuardedRun(s, steps, z, side)
    ensures GuardedRun(s, steps, z, side) ==> LedgerAt(Run(s, steps), z, side)
    decreases |steps|
  {
    hide LedgerAt, CanStep, GuardedStep, Next;
    if steps != [] {
      StepLedgerIff(s, steps[0], z, side);
      if GuardedStep(s, steps[0], z, side) {
        LedgerIffGuarded(Next(s, steps[0]), steps[1..], z, side);
      } else {
        NotAlways(Next(s, steps[0]), steps[1..], z, side);
      }
    }
  }

  lemma NotAlways(s: State, steps: seq<Step>, z: nat, side: Side)
    requires CanRun(s, steps) && !LedgerAt(s, z, side)
    ensures !AlwaysLedger(s, steps, z, side)
  {
  }

  // ---- The id window ----

  ghost predicate WindowAt(s: State, z: nat, side: Side) {
    z < |s.conns| ==> InWindow(EndOf(s.conns[z], side).table)
  }

  ghost predicate WindowStep(s: State, step: Step, z: nat, side: Side)
    requires CanStep(s, step)
  {
    OwnStep(step, z, side) ==> KeepsWindow(EndOf(s.conns[z], side), step.a)
  }

  /** This end issues no id that would leave a request pending with 32767 newer ids issued. */
  ghost predicate WindowRun(s: State, steps: seq<Step>, z: nat, side: Side)
    requires CanRun(s, steps)
    decreases |steps|
  {
    steps == [] || (WindowStep(s, steps[0], z, side) && WindowRun(Next(s, steps[0]), steps[1..], z, side))
  }

  lemma StepKeepsWindow(s: State, step: Step, z: nat, side: Side)
    requires WindowAt(s, z, side) && CanStep(s, step) && WindowStep(s, step, z, side)
    ensures WindowAt(Next(s, step), z, side)
    ensures LedgerAt(s, z, side) ==> GuardedStep(s, step, z, side)
  {
    hide Ledger, Act, Next, CanStep, Enabled, HitsOwn, InWindow, KeepsWindow, CidOf;
    if z < |s.conns| {
      var _ := EndOver(s, step, z, side);
      if OwnStep(step, z, side) {
        ActKeepsWindow(EndOf(s.conns[z], side), step.a, PeerId(s.conns[z], side));
      }
    } else {
      NotOwn(s, step, z, side);
      if z < |Next(s, step).conns| {
        NewConn(s, step, z, side);
        FreshEnd(z, 0, map[]);
      }
    }
  }

  /** A run in which an end keeps its id window is one in which its timeouts and send failures find their own. */
  lemma {:induction false} WindowIsGuarded(s: State, steps: seq<Step>, z: nat, side: Side)
    requires WindowAt(s, z, side) && LedgerAt(s, z, side) && CanRun(s, steps) && WindowRun(s, steps, z, side)
    ensures GuardedRun(s, steps, z, side)
    ensures WindowAt(Run(s, steps), z, side) && LedgerAt(Run(s, steps), z, side)
    decreases |steps|
  {
    hide WindowAt, LedgerAt, CanStep, WindowStep, GuardedStep, Next;
    if steps != [] {
      StepKeepsWindow(s, steps[0], z, side);
      StepLedgerIff(s, steps[0], z, side);
      WindowIsGuarded(Next(s, steps[0]), steps[1..], z, side);
    }
  }

  // ---- What becomes of a request ----

  /** The ends there are after a run from the start. */
  ghost predicate Arrived(steps: seq<Step>, c: nat, side: Side, e: End) {
    && CanRun(INIT, steps)
    && var s := Run(INIT, steps);
       c < |s.conns| && e == EndOf(s.conns[c], side)
  }

  /** ... and after one in which that end's timeouts and send failures found their own requests. */
  ghost predicate Accountable(steps: seq<Step>, c: nat, side: Side, e: End) {
    Arrived(steps, c, side, e) && GuardedRun(INIT, steps, c, side)
  }

  lemma ArrivedOk(steps: seq<Step>, c: nat, side: Side, e: End) returns (id: u16, theirs: Requests)
    requires Arrived(steps, c, side, e)
    ensures EndOk(e, c, id, theirs) && id == PeerId(Run(INIT, steps).conns[c], side)
  {
    hide EndOk, CidOf;
    RunsAreOrderly(steps);
    var x := Run(INIT, steps).conns[c];
    assert ConnOk(x, c);
    id, theirs := PeerId(x, side), EndOf(x, Other(side)).asked;
  }

  lemma AccountableLedger(steps: seq<Step>, c: nat, side: Side, e: End)
    requires Accountable(steps, c, side, e)
    ensures Ledger(e)
  {
    hide Ledger;
    LedgerIffGuarded(INIT, steps, c, side);
  }

  /** A request's callback is run or owed once if it was answered or timed out, and never otherwise. */
  lemma AtMostOnce(steps: seq<Step>, c: nat, side: Side, e: End, k: nat)
    requires Accountable(steps, c, side, e)
    ensures k in e.fate <==> 1 <= k <= e.table.issued
    ensures |CallsFor(Calls(e), k)| == if k in e.fate && (e.fate[k].Answered? || e.fate[k].Expired?) then 1 else 0
  {
    hide Valid, Accountable, Calls, CallsFor, CallsOk;
    AccountableLedger(steps, c, side, e);
    CallbackOnce(e, k);
  }

  /** Issued = pending + answered + timed out + failed + shut down + in vain, and a live timer for each pending one. */
  lemma Conserved(steps: seq<Step>, c: nat, side: Side, e: End)
    requires Accountable(steps, c, side, e)
    ensures e.table.issued == |e.table.pending| + |With(e, Answered)| + |With(e, Expired)|
                              + |With(e, SendFailed)| + |With(e, ShutDownWith)| + |With(e, InVain)|
    ensures e.table.timers == Issues(e.table.pending) == With(e, Waiting)
  {
    hide Ledger, Accountable, With, Issues;
    AccountableLedger(steps, c, side, e);
    Conservation(e);
  }

  /** Timer ownership: a timeout that fires is a waiting request's, never one replied to, failed or shut down. */
  lemma OnlyWaitingFireInRuns(steps: seq<Step>, c: nat, side: Side, e: End, k: nat)
    requires Accountable(steps, c, side, e) && Enabled(e, Fire(k))
    ensures k in e.fate && e.fate[k].Waiting? && e.open
  {
    hide Ledger, Accountable;
    AccountableLedger(steps, c, side, e);
    OnlyWaitingFire(e, k);
  }

  lemma StepKeepsFate(s: State, step: Step, c: nat, side: Side, k: nat)
    requires LedgerAt(s, c, side) && CanStep(s, step) && c < |s.conns|
    requires var e := EndOf(s.conns[c], side); k in e.fate && !e.fate[k].Waiting?
    ensures var r := Next(s, step);
      && c < |r.conns| && k in EndOf(r.conns[c], side).fate
      && EndOf(r.conns[c], side).fate[k] == EndOf(s.conns[c], side).fate[k]
  {
    hide Ledger, Act, Next, CanStep, Enabled, CidOf;
    var _ := EndOver(s, step, c, side);
    if OwnStep(step, c, side) {
      FateIsFinal(EndOf(s.conns[c], side), step.a, PeerId(s.conns[c], side), k);
    }
  }

  /** A request that has left the pending list stays what it became, for the rest of the run. */
  lemma {:induction false} FateIsFinalInRuns(s: State, steps: seq<Step>, c: nat, side: Side, k: nat)
    requires LedgerAt(s, c, side) && CanRun(s, steps) && GuardedRun(s, steps, c, side) && c < |s.conns|
    requires var e := EndOf(s.conns[c], side); k in e.fate && !e.fate[k].Waiting?
    ensures var r := Run(s, steps);
      && c < |r.conns| && k in EndOf(r.conns[c], side).fate
      && EndOf(r.conns[c], side).fate[k] == EndOf(s.conns[c], side).fate[k]
    decreases |steps|
  {
    hide LedgerAt, CanStep, GuardedStep, Next;
    if steps != [] {
      StepLedgerIff(s, steps[0], c, side);
      StepKeepsFate(s, steps[0], c, side, k);
      FateIsFinalInRuns(Next(s, steps[0]), steps[1..], c, side, k);
    }
  }

  /**
   In every run, the pending ids of an end are pairwise distinct whenever its pending requests
   are among the last 32767 issued.
   */
  lemma DistinctPending(steps: seq<Step>, c: nat, side: Side, e: End)
    requires Arrived(steps, c, side, e)
    requires forall x <- e.table.pending :: e.table.issued - x.issue < 32767
    ensures forall i, j :: 0 <= i < j < |e.table.pending| ==> e.table.pending[i].id != e.table.pending[j].id
  {
    hide Arrived, Ordered, MailOk, RepliesOk;
    var _, _ := ArrivedOk(steps, c, side, e);
    DistinctIds(e.table);
  }

  // ---- Callbacks are run ----

  lemma {:induction false} RunConcat(s: State, a: seq<Step>, b: seq<Step>)
    requires CanRun(s, a) && CanRun(Run(s, a), b)
    ensures CanRun(s, a + b) && Run(s, a + b) == Run(Run(s, a), b)
    decreases |a|
  {
    hide CanStep, Next;
    if a == [] {
      assert a + b == b;
    } else {
      assert (a + b)[1..] == a[1..] + b;
      RunConcat(Next(s, a[0]), a[1..], b);
    }
  }

  /** One owed callback is run, and nothing else changes anywhere. */
  lemma OneCallback(s: State, c: nat, side: Side)
    requires c < |s.conns| && EndOf(s.conns[c], side).due != []
    ensures CanStep(s, At(c, side, RunCallback))
    ensures var e := EndOf(s.conns[c], side);
      Next(s, At(c, side, RunCallback))
        == s.(conns := s.conns[c := WithEnd(s.conns[c], side, e.(ran := e.ran + [e.due[0]], due := e.due[1..]))])
  {
    hide CidOf;
    var x := s.conns[c];
    CallbackRun(EndOf(x, side), PeerId(x, side));
    MovedHere(s, c, side, RunCallback);
    DeliverNothing(Moved(x, side, RunCallback), Other(side));
  }

  /**
   In any state, the callbacks an end owes can be run: exactly those, in order, each once, and
   then none is owed.  Nothing else changes anywhere.
   */
  lemma {:induction false} OwedAreRun(s: State, c: nat, side: Side) returns (steps: seq<Step>, r: State)
    requires c < |s.conns|
    ensures CanRun(s, steps) && r == Run(s, steps) && |steps| == |EndOf(s.conns[c], side).due|
    ensures var e := EndOf(s.conns[c], side);
      r == s.(conns := s.conns[c := WithEnd(s.conns[c], side, e.(ran := e.ran + e.due, due := []))])
    decreases |EndOf(s.conns[c], side).due|
  {
    hide CanStep, Next;
    var e := EndOf(s.conns[c], side);
    if e.due == [] {
      steps, r := [], s;
      assert e.(ran := e.ran + [], due := []) == e;
    } else {
      OneCallback(s, c, side);
      var step := At(c, side, RunCallback);
      var rest;
      rest, r := OwedAreRun(Next(s, step), c, side);
      steps := [step] + rest;
      assert steps[1..] == rest;
      assert e.ran + [e.due[0]] + e.due[1..] == e.ran + e.due;
    }
  }

  // ---- Whose answer a callback is given ----

  /** In this run the end, as it was in `d`, received the answer that this callback was given. */
  ghost predicate GivenBy(s: State, steps: seq<Step>, c: nat, side: Side, cb: Callback, d: End)
    requires CanRun(s, steps)
    decreases |steps|
  {
    && steps != []
    && (|| GivesHere(s, steps[0], c, side, cb, d)
        || GivenBy(Next(s, steps[0]), steps[1..], c, side, cb, d))
  }

  ghost predicate GivesHere(s: State, step: Step, c: nat, side: Side, cb: Callback, d: End) {
    OwnStep(step, c, side) && step.a.Receive? && c < |s.conns| && d == EndOf(s.conns[c], side) && Gives(d, cb)
  }

  lemma NewReply(e: End, a: Action, c: nat, id: u16, theirs: Requests, cb: Callback)
    requires EndOk(e, c, id, theirs) && Enabled(e, a) && cb.Replied?
    requires cb in Calls(Act(e, a, id)) && cb !in Calls(e)
    ensures a.Receive? && Gives(e, cb)
  {
    hide Answer, AppWord, Classify, Ordered, RepliesOk, IdOf;
    if a.Receive? {
      MailTaken(e, c, id, theirs);
      MessageSorted(e.inbox[0], c, id, e.asked, theirs);
    }
  }

  /** A reply callback that a step adds is one that the step's own message was given to. */
  lemma StepGives(s: State, step: Step, c: nat, side: Side, cb: Callback)
    requires Orderly(s) && CanStep(s, step) && c < |Next(s, step).conns|
    requires cb in Calls(EndOf(Next(s, step).conns[c], side)) && cb.Replied?
    requires c < |s.conns| ==> cb !in Calls(EndOf(s.conns[c], side))
    ensures c < |s.conns| && GivesHere(s, step, c, side, cb, EndOf(s.conns[c], side))
  {
    hide Act, Next, CanStep, Enabled, CidOf, EndOk, Gives;
    if c < |s.conns| {
      var x := s.conns[c];
      assert ConnOk(x, c);
      var _ := EndOver(s, step, c, side);
      if OwnStep(step, c, side) {
        NewReply(EndOf(x, side), step.a, c, PeerId(x, side), EndOf(x, Other(side)).asked, cb);
      }
    } else {
      NewConn(s, step, c, side);
    }
  }

  lemma StepExtends(s: State, step: Step, c: nat, side: Side)
    requires Orderly(s) && CanStep(s, step) && c < |s.conns|
    ensures c < |Next(s, step).conns|
    ensures Extends(EndOf(s.conns[c], side).asked, EndOf(Next(s, step).conns[c], side).asked)
  {
    hide Act, Next, CanStep, Enabled, CidOf, EndOk;
    var x := s.conns[c];
    assert ConnOk(x, c);
    var _ := EndOver(s, step, c, side);
    if OwnStep(step, c, side) {
      ActKeeps(EndOf(x, side), step.a, c, PeerId(x, side), EndOf(x, Other(side)).asked);
    }
  }

  lemma {:induction false} RunExtends(s: State, steps: seq<Step>, c: nat, side: Side)
    requires Orderly(s) && CanRun(s, steps) && c < |s.conns|
    ensures c < |Run(s, steps).conns|
    ensures Extends(EndOf(s.conns[c], side).asked, EndOf(Run(s, steps).conns[c], side).asked)
    decreases |steps|
  {
    hide Orderly, CanStep, Next;
    if steps != [] {
      StepKeepsOrderly(s, steps[0]);
      StepExtends(s, steps[0], c, side);
      RunExtends(Next(s, steps[0]), steps[1..], c, side);
    }
  }

  /** Every reply callback was given by some step of the run, to an end in order and with no other requests. */
  lemma {:induction false} Giver(s: State, steps: seq<Step>, c: nat, side: Side, cb: Callback)
    returns (d: End, id: u16, theirs: Requests)
    requires Orderly(s) && CanRun(s, steps) && c < |Run(s, steps).conns| && cb.Replied?
    requires cb in Calls(EndOf(Run(s, steps).conns[c], side))
    requires c < |s.conns| ==> cb !in Calls(EndOf(s.conns[c], side))
    ensures GivenBy(s, steps, c, side, cb, d) && Gives(d, cb)
    ensures EndOk(d, c, id, theirs) && Extends(d.asked, EndOf(Run(s, steps).conns[c], side).asked)
    ensures WindowAt(s, c, side) && WindowRun(s, steps, c, side) ==> InWindow(d.table)
    decreases |steps|
  {
    hide Orderly, CanStep, Next, EndOk, Gives, WindowStep, Calls, InWindow;
    var t := Next(s, steps[0]);
    StepKeepsOrderly(s, steps[0]);
    if WindowAt(s, c, side) && WindowStep(s, steps[0], c, side) {
      StepKeepsWindow(s, steps[0], c, side);
    }
    if c < |t.conns| && cb in Calls(EndOf(t.conns[c], side)) {
      StepGives(s, steps[0], c, side, cb);
      id, theirs := OrderlyEnd(s, c, side);
      d := EndOf(s.conns[c], side);
      RunExtends(s, steps, c, side);
    } else {
      d, id, theirs := Giver(t, steps[1..], c, side, cb);
    }
  }

  lemma OrderlyEnd(s: State, c: nat, side: Side) returns (id: u16, theirs: Requests)
    requires Orderly(s) && c < |s.conns|
    ensures EndOk(EndOf(s.conns[c], side), c, id, theirs)
  {
    hide EndOk, CidOf;
    var x := s.conns[c];
    assert ConnOk(x, c);
    id, theirs := PeerId(x, side), EndOf(x, Other(side)).asked;
  }

  /** Requests made since do not change which request an answer is for. */
  lemma AnswersItStill(d: End, e: End, c: nat, id: u16, theirs: Requests, cb: Callback)
    requires EndOk(d, c, id, theirs) && Gives(d, cb) && Extends(d.asked, e.asked)
    ensures AnswersIt(d.asked, c, cb) <==> AnswersIt(e.asked, c, cb)
  {
    hide Act, Ordered, RepliesOk, IdOf;
    assert d.inbox[0] in d.inbox;
  }

  /**
   Correlation, in every run: the payload given to a request's callback was sent in answer to
   this very request - made at this end of this connection, with this issue number and payload
   - exactly when the answer met no other request at the moment it was received.
   */
  lemma Correlation(steps: seq<Step>, c: nat, side: Side, e: End, cb: Callback) returns (d: End)
    requires Arrived(steps, c, side, e) && cb in Calls(e) && cb.Replied?
    ensures GivenBy(INIT, steps, c, side, cb, d) && Gives(d, cb)
    ensures AnswersIt(e.asked, c, cb) <==> !MeetsAnother(d, c)
    ensures WindowRun(INIT, steps, c, side) ==> (AnswersIt(e.asked, c, cb) <==> InTime(d, c))
  {
    hide EndOk, Gives, MeetsAnother, InTime, Calls, WindowRun, AnswersIt, InWindow, GivenBy;
    var id, theirs;
    d, id, theirs := Giver(INIT, steps, c, side, cb);
    AnswersItStill(d, e, c, id, theirs, cb);
    GivesIff(d, c, id, theirs, cb);
    if WindowRun(INIT, steps, c, side) {
      InTimeIff(d, c, id, theirs, cb);
    }
  }

  /**
   In every run in which an end keeps its id window: an answer that arrives less than a round
   of ids after its request is given to that request if it still waits, and otherwise - it
   has timed out, failed or been answered - is dropped and never given to another.
   */
  lemma AnswerArrivesInRuns(steps: seq<Step>, c: nat, side: Side, e: End)
    requires Arrived(steps, c, side, e) && WindowRun(INIT, steps, c, side)
    requires Enabled(e, Receive) && e.inbox[0].tag.Answers? && InTime(e, c)
    ensures var m, k := e.inbox[0], e.inbox[0].tag.issue;
      var r := Act(e, Receive, PeerId(Run(INIT, steps).conns[c], side));
      && k in e.asked && m.tag.request == e.asked[k] && k in e.fate
      && if e.fate[k].Waiting?
         then r.due == e.due + [Replied(k, m)] && r.fate == e.fate[k := Answered] && r.received == e.received
              && r.ran == e.ran && r.inbox == e.inbox[1..]
         else r == e.(inbox := e.inbox[1..])
  {
    hide EndOk, Ledger, InWindow, Enabled, Act, InTime, WindowRun, CidOf;
    var id, theirs := ArrivedOk(steps, c, side, e);
    WindowIsGuarded(INIT, steps, c, side);
    AnswerArrives(e, c, id, theirs);
  }

  /**
   In every run, no message is taken for what it is not, whatever ids are outstanding at the
   two ends; and no application is ever given a sequence number with bit 15 set.
   */
  lemma NothingMistaken(steps: seq<Step>, c: nat, side: Side, e: End)
    requires Arrived(steps, c, side, e)
    ensures forall m <- e.inbox ::
      && (m.tag.Asks? <==> Classify(m.seqNum) == Kind.Request)
      && (m.tag.Answers? <==> Classify(m.seqNum) == Kind.Reply)
      && (m.tag.Tells? <==> Classify(m.seqNum) == Kind.Unsolicited)
    ensures forall m <- e.received ::
      && !IsNewRequest(m.seqNum) && !m.tag.Answers?
      && (m.tag.Tells? <==> SeqId(m.seqNum) == 0)
      && (m.tag.Asks? ==> m.tag.issue > 0 && SeqId(m.seqNum) == IdOf(m.tag.issue))
      && ClientId(m.seqNum) == PeerId(Run(INIT, steps).conns[c], side)
    ensures forall cb <- Calls(e) :: cb.Replied? ==>
      && cb.msg.tag.Answers? && !IsNewRequest(SeqId(cb.msg.seqNum))
      && cb.msg.tag.issue > 0 && SeqId(cb.msg.seqNum) == IdOf(cb.msg.tag.issue)
  {
    hide Arrived, Classify, Ordered, IdOf, CidOf, Calls;
    var id, theirs := ArrivedOk(steps, c, side, e);
    forall m | m in e.inbox
      ensures m.tag.Asks? <==> Classify(m.seqNum) == Kind.Request
      ensures m.tag.Answers? <==> Classify(m.seqNum) == Kind.Reply
    {
      MessageSorted(m, c, id, e.asked, theirs);
    }
    assert forall m <- e.received :: ReceivedOk(m, id, theirs);
  }
}
