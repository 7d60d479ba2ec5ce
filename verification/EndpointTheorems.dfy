/** What follows for one end from its ledger, its id window and its mail. */
module EndpointTheorems {
  import opened Bytes
  import opened SeqNum
  import opened RequestTable
  import opened Endpoint

  /** The requests with this fate. */
  ghost function With(e: End, f: Fate): (ks: set<nat>) {
    set k <- e.fate | e.fate[k] == f
  }

  /**
   Conservation: every id issued is accounted for once - as pending, or by one of the ways
   out of the list, or as one whose request never stayed in it.
   */
  lemma Conservation(e: End)
    requires Ledger(e)
    ensures With(e, Waiting) == Issues(e.table.pending) == e.table.timers
    ensures |e.table.pending| == |With(e, Waiting)|
    ensures e.table.issued == |e.table.pending| + |With(e, Answered)| + |With(e, Expired)|
                              + |With(e, SendFailed)| + |With(e, ShutDownWith)| + |With(e, InVain)|
  {
    hide CallsOk;
    assert With(e, Waiting) == Issues(e.table.pending) by {
      forall k ensures k in With(e, Waiting) <==> k in Issues(e.table.pending) {
        if k in Issues(e.table.pending) {
          PendingIssued(e.table, k);
        }
      }
    }
    CountIssues(e.table.pending);
    Interval(e.fate.Keys, e.table.issued);
    Partition(e);
  }

  lemma {:induction false} CountIssues(es: seq<Entry>)
    requires forall i, j :: 0 <= i < j < |es| ==> es[i].issue > es[j].issue
    ensures |Issues(es)| == |es|
  {
    if es == [] {
      assert Issues(es) == {};
    } else {
      CountIssues(es[1..]);
      IssuesFirst(es);
    }
  }

  lemma IssuesFirst(es: seq<Entry>)
    requires es != []
    ensures Issues(es) == {es[0].issue} + Issues(es[1..])
    ensures (forall j :: 0 < j < |es| ==> es[0].issue > es[j].issue) ==> es[0].issue !in Issues(es[1..])
  {
    assert es == [es[0]] + es[1..];
  }

  lemma {:induction false} Interval(ks: set<nat>, n: nat)
    requires forall k :: k in ks <==> 1 <= k <= n
    ensures |ks| == n
  {
    if n == 0 {
      assert ks == {};
    } else {
      Interval(ks - {n}, n - 1);
    }
  }

  function Rank(f: Fate): (n: nat) {
    match f
    case Waiting => 0
    case Answered => 1
    case Expired => 2
    case SendFailed => 3
    case ShutDownWith => 4
    case InVain => 5
  }

  ghost function Beyond(e: End, n: nat): (ks: set<nat>) {
    set k <- e.fate | Rank(e.fate[k]) >= n
  }

  lemma TakeOut(e: End, f: Fate)
    ensures |Beyond(e, Rank(f))| == |With(e, f)| + |Beyond(e, Rank(f) + 1)|
  {
    assert Beyond(e, Rank(f)) == With(e, f) + Beyond(e, Rank(f) + 1);
  }

  lemma Partition(e: End)
    ensures |e.fate.Keys| == |With(e, Waiting)| + |With(e, Answered)| + |With(e, Expired)|
                             + |With(e, SendFailed)| + |With(e, ShutDownWith)| + |With(e, InVain)|
  {
    hide With, Beyond;
    BeyondEnds(e);
    TakeOut(e, Waiting);
    TakeOut(e, Answered);
    TakeOut(e, Expired);
    TakeOut(e, SendFailed);
    TakeOut(e, ShutDownWith);
    TakeOut(e, InVain);
  }

  lemma BeyondEnds(e: End)
    ensures Beyond(e, 0) == e.fate.Keys && Beyond(e, 6) == {}
  {
  }

  /** The callbacks of one request, run or owed. */
  function CallsFor(cbs: seq<Callback>, k: nat): (r: seq<Callback>)
    ensures forall cb <- r :: cb in cbs && cb.issue == k
  {
    if cbs == [] then []
    else (if cbs[0].issue == k then [cbs[0]] else []) + CallsFor(cbs[1..], k)
  }

  /** At most once: a request has one callback if it was answered or timed out, and none in every other case. */
  lemma CallbackOnce(e: End, k: nat)
    requires Ledger(e)
    ensures |CallsFor(Calls(e), k)|
         == if k in e.fate && (e.fate[k].Answered? || e.fate[k].Expired?) then 1 else 0
    ensures forall cb <- CallsFor(Calls(e), k) :: k in e.fate && e.fate[k] == FateOf(cb)
  {
    hide FatesOk, Valid, Calls;
    CountCalls(Calls(e), k);
  }

  lemma {:induction false} CountCalls(cbs: seq<Callback>, k: nat)
    requires forall i, j :: 0 <= i < j < |cbs| ==> cbs[i].issue != cbs[j].issue
    ensures |CallsFor(cbs, k)| == if exists cb <- cbs :: cb.issue == k then 1 else 0
  {
    if cbs != [] {
      var rest := cbs[1..];
      CountCalls(rest, k);
      if cbs[0].issue == k {
        assert forall cb <- rest :: cb.issue != k;
      } else if cb :| cb in cbs && cb.issue == k {
        assert cb in rest;
      }
    }
  }

  /** A fate other than waiting is final, whatever the end does next. */
  lemma FateIsFinal(e: End, a: Action, clientId: u16, k: nat)
    requires Ledger(e) && Enabled(e, a)
    requires k in e.fate && !e.fate[k].Waiting?
    ensures var r := Act(e, a, clientId); k in r.fate && r.fate[k] == e.fate[k]
  {
    hide CallsOk, AppWord, Answer, Cancel;
    match a
    case Receive =>
      var m := e.inbox[0];
      if Classify(m.seqNum) == Kind.Reply && HasMatch(e.table, SeqId(m.seqNum)) {
        MatchedPending(e.table, SeqId(m.seqNum));
      }
    case _ =>
  }

  /**
   A timeout that finds its own request owes that request's callback, the only one it has, and
   takes it and its timer away; nothing else changes.
   */
  lemma TimeoutOwes(e: End, k: nat, clientId: u16)
    requires Ledger(e) && Enabled(e, Fire(k)) && HitsOwn(e, Fire(k))
    ensures var r := Act(e, Fire(k), clientId);
      && r.due == e.due + [TimedOut(k)] && r.ran == e.ran
      && r.fate == e.fate[k := Expired]
      && Issues(r.table.pending) == r.table.timers == e.table.timers - {k}
      && r.received == e.received && r.inbox == e.inbox
  {
    hide Valid, IdOf;
    LedgerIff(e, Fire(k), clientId);
    TimersAreIssues(e.table);
    TimersAreIssues(Act(e, Fire(k), clientId).table);
  }

  /** A send that fails takes its own request and timer away too, but owes no callback. */
  lemma SendFailureSilent(e: End, k: nat, clientId: u16)
    requires Ledger(e) && Enabled(e, SendFails(k)) && HitsOwn(e, SendFails(k))
    ensures var r := Act(e, SendFails(k), clientId);
      && r.due == e.due && r.ran == e.ran
      && r.fate == e.fate[k := SendFailed] && r.unsent == e.unsent - {k}
      && Issues(r.table.pending) == r.table.timers == e.table.timers - {k}
      && r.received == e.received && r.inbox == e.inbox
    ensures Outgoing(e, SendFails(k), 0) == []
  {
    hide Valid, IdOf;
    LedgerIff(e, SendFails(k), clientId);
    TimersAreIssues(e.table);
    TimersAreIssues(Act(e, SendFails(k), clientId).table);
  }

  /**
   A close shuts every waiting request down: none is left pending, no timer is, and no callback
   is owed that was not before.  Nothing but the callbacks already owed can happen to the end.
   */
  lemma CloseEnds(e: End, clientId: u16)
    requires Ledger(e) && Enabled(e, Close)
    ensures var r := Act(e, Close, clientId);
      && !r.open && r.table.pending == [] && r.table.timers == {} && r.table.issued == e.table.issued
      && r.due == e.due && r.ran == e.ran
      && (forall k <- e.fate :: k in r.fate && r.fate[k] == if e.fate[k].Waiting? then ShutDownWith else e.fate[k])
      && forall a :: Enabled(r, a) ==> a.RunCallback? || a.Respond?
  {
    hide Valid, CallsOk;
  }

  /** A request is put on the wire at most once: only a new one can still be sent, and sending it ends that. */
  lemma SentOnce(e: End, a: Action, clientId: u16, k: nat)
    requires Enabled(e, a)
    ensures k in Act(e, a, clientId).unsent <==>
      || (a.Register? && k == e.table.issued + 1)
      || (k in e.unsent && a != Transmit(k) && a != SendFails(k))
    ensures (exists m <- Outgoing(e, a, 0) :: m.tag == Asks(k)) ==> a == Transmit(k) && k in e.unsent
  {
    hide Classify, AppWord, Answer, Cancel, IdOf;
  }

  /** Callbacks are run in the order they are owed. */
  lemma CallbackRun(e: End, clientId: u16)
    requires Enabled(e, RunCallback)
    ensures var r := Act(e, RunCallback, clientId);
      && r.ran == e.ran + [e.due[0]] && r.due == e.due[1..]
      && r == e.(ran := r.ran, due := r.due)
  {
  }

  /** No timeout fires for a request that was replied to, failed or shut down. */
  lemma OnlyWaitingFire(e: End, k: nat)
    requires Ledger(e) && Enabled(e, Fire(k))
    ensures k in e.fate && e.fate[k].Waiting? && e.open
  {
    TimersAreIssues(e.table);
    PendingIssued(e.table, k);
  }

  /** A request that arrives is given to the application and leaves the pending requests alone, whatever their ids. */
  lemma RequestArrives(e: End, c: nat, clientId: u16, theirs: Requests, k: nat)
    requires MailOk(e, c, clientId, theirs) && Enabled(e, Receive) && e.inbox[0].tag == Asks(k)
    ensures k > 0 && k in theirs
    ensures Act(e, Receive, clientId) == e.(inbox := e.inbox[1..],
      received := e.received + [Message(AppWord(RequestWord(IdOf(k)), clientId), theirs[k], Asks(k))])
  {
    hide Classify, AppWord;
    assert e.inbox[0] in e.inbox;
    MessageSorted(e.inbox[0], c, clientId, e.asked, theirs);
  }

  /** The step receives an answer, and the callback it owes for it is this one. */
  ghost predicate Gives(e: End, cb: Callback) {
    && cb.Replied? && Enabled(e, Receive) && e.inbox[0] == cb.msg && cb.msg.tag.Answers?
    && Act(e, Receive, 0).due == e.due + [cb]
  }

  lemma GivenTo(e: End, cb: Callback)
    requires Gives(e, cb) && Classify(e.inbox[0].seqNum) == Kind.Reply
    ensures HasMatch(e.table, SeqId(e.inbox[0].seqNum))
    ensures cb.issue == Matched(e.table, SeqId(e.inbox[0].seqNum)).issue
  {
    hide AppWord, Answer, HasMatch, Matched;
    var r := Act(e, Receive, 0);
    assert |r.due| == |e.due| + 1 && r.due[|e.due|] == cb;
  }

  /**
   Whatever ids repeat, however late the answer is, and wherever it was given: the callback
   it runs is its own request's exactly when it does not meet another.
   */
  lemma GivesIff(e: End, c: nat, clientId: u16, theirs: Requests, cb: Callback)
    requires EndOk(e, c, clientId, theirs) && Gives(e, cb)
    ensures AnswersIt(e.asked, c, cb) <==> !MeetsAnother(e, c)
  {
    hide Classify, AppWord, Answer, Ordered, HasMatch, Matched, IdOf;
    var m := e.inbox[0];
    var k := m.tag.issue;
    MessageSorted(m, c, clientId, e.asked, theirs);
    GivenTo(e, cb);
    MisdeliveredIff(e.table, k);
    MatchedIsNewest(e.table, IdOf(k));
  }

  /** An answer runs a callback that is not its own request's exactly when it meets another. */
  lemma WrongCallbackIff(e: End, c: nat, clientId: u16, theirs: Requests)
    requires EndOk(e, c, clientId, theirs) && Enabled(e, Receive) && e.inbox[0].tag.Answers?
    ensures var m, r := e.inbox[0], Act(e, Receive, clientId);
      (|r.due| == |e.due| + 1 && !(m.tag.conn == c && r.due[|e.due|].issue == m.tag.issue)) <==> MeetsAnother(e, c)
  {
    hide Classify, AppWord, Answer, Ordered, HasMatch, Matched, IdOf;
    var m := e.inbox[0];
    var k := m.tag.issue;
    MessageSorted(m, c, clientId, e.asked, theirs);
    MisdeliveredIff(e.table, k);
    MatchedIsNewest(e.table, IdOf(k));
  }

  /** Within the id window, an answer that runs a callback runs its own request's exactly when it is in time. */
  lemma InTimeIff(e: End, c: nat, clientId: u16, theirs: Requests, cb: Callback)
    requires EndOk(e, c, clientId, theirs) && InWindow(e.table) && Gives(e, cb)
    ensures AnswersIt(e.asked, c, cb) <==> InTime(e, c)
  {
    hide Classify, AppWord, Answer, Ordered, IdOf, HasMatch, Matched;
    var m := e.inbox[0];
    var k := m.tag.issue;
    MessageSorted(m, c, clientId, e.asked, theirs);
    GivenTo(e, cb);
    MatchedIsNewest(e.table, IdOf(k));
    if InTime(e, c) {
      ReplyMatchesIff(e.table, k);
    }
  }

  /**
   An answer that is in time is given to its request if that still waits, and is dropped
   without any other effect if it does not - whatever came of any other answer.
   */
  lemma AnswerArrives(e: End, c: nat, clientId: u16, theirs: Requests)
    requires EndOk(e, c, clientId, theirs) && Ledger(e) && InWindow(e.table)
    requires Enabled(e, Receive) && e.inbox[0].tag.Answers? && InTime(e, c)
    ensures var m, k, r := e.inbox[0], e.inbox[0].tag.issue, Act(e, Receive, clientId);
      && k in e.asked && m.tag.request == e.asked[k] && k in e.fate
      && if e.fate[k].Waiting?
         then r.due == e.due + [Replied(k, m)] && r.fate == e.fate[k := Answered] && r.received == e.received
              && r.ran == e.ran && r.inbox == e.inbox[1..]
         else r == e.(inbox := e.inbox[1..])
  {
    hide CallsOk, Classify, AppWord, Answer, InWindow;
    var m := e.inbox[0];
    MessageSorted(m, c, clientId, e.asked, theirs);
    ReplyMatchesIff(e.table, m.tag.issue);
  }
}
