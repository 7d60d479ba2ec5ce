/**
 One end of a connection as a state machine.  Every section the code runs under its mutex
 is one step; the callback it then runs without the mutex is a later step, so a callback
 may register further requests.
 */
module Endpoint {
  import opened Bytes
  import opened SeqNum
  import opened RequestTable

  /**
   What a message is, which the code does not know: a request of the sender, the answer to
   a request - made on a connection, with an issue number and a payload - or neither.
   */
  datatype Tag = Asks(issue: nat) | Answers(conn: nat, issue: nat, request: seq<byte>) | Tells

  datatype Message = Message(seqNum: u32, payload: seq<byte>, tag: Tag)

  /** A request's callback, owed or already run. */
  datatype Callback = Replied(issue: nat, msg: Message) | TimedOut(issue: nat)

  /** How a request left the pending list; `InVain` if it never stayed in it. */
  datatype Fate = Waiting | Answered | Expired | SendFailed | ShutDownWith | InVain

  /**
   `asked` holds the payload of every request; `unsent` are the requests between registration
   and `sendmsg`; `received` is what the receive callback was given; `due` are the callbacks
   owed and `ran` those that were run.
   */
  datatype End = End(open: bool, table: Table, asked: map<nat, seq<byte>>, unsent: set<nat>, inbox: seq<Message>,
                     received: seq<Message>, due: seq<Callback>, ran: seq<Callback>, fate: map<nat, Fate>)

  const FRESH := End(true, EMPTY, map[], {}, [], [], [], [], map[])

  datatype Action =
    | Register(payload: seq<byte>)
    | RegisterInVain
    | Transmit(issue: nat)
    | SendFails(issue: nat)
    | Receive
    | Fire(issue: nat)
    | RunCallback
    | Tell(payload: seq<byte>)
    | Respond(i: nat, payload: seq<byte>)
    | Close

  /**
   A send can only fail while its request is pending; a timer fires only while it is live;
   only requests are answered, and they may be answered too late.
   */
  predicate Enabled(e: End, a: Action) {
    && (a.RunCallback? || a.Respond? || e.open)
    && match a
       case Transmit(k) => k in e.unsent && k in e.asked && k > 0
       case SendFails(k) => k in e.unsent && k in e.table.timers && k > 0
       case Fire(k) => k in e.table.timers && k > 0
       case Receive => e.inbox != []
       case RunCallback => e.due != []
       case Respond(i, _) => i < |e.received| && e.received[i].tag.Asks?
       case _ => true
  }

  /** The receive loop's treatment of one frame, for an end that knows its peer as `clientId`. */
  function ReceiveOne(e: End, m: Message, clientId: u16): (r: End) {
    if Classify(m.seqNum) != Kind.Reply
    then e.(received := e.received + [m.(seqNum := AppWord(m.seqNum, clientId))])
    else if HasMatch(e.table, SeqId(m.seqNum)) then
      var k := Matched(e.table, SeqId(m.seqNum)).issue;
      e.(table := Answer(e.table, SeqId(m.seqNum)), due := e.due + [Replied(k, m)], fate := e.fate[k := Answered])
    else e
  }

  function Act(e: End, a: Action, clientId: u16): (r: End)
    requires Enabled(e, a)
  {
    match a
    case Register(payload) =>
      var n := e.table.issued + 1;
      e.(table := RequestTable.Register(e.table), asked := e.asked[n := payload], unsent := e.unsent + {n},
         fate := e.fate[n := Waiting])
    case RegisterInVain =>
      e.(table := RequestTable.RegisterInVain(e.table), fate := e.fate[e.table.issued + 1 := InVain])
    case Transmit(k) => e.(unsent := e.unsent - {k})
    case SendFails(k) =>
      e.(table := Cancel(e.table, k), unsent := e.unsent - {k}, fate := e.fate[k := SendFailed])
    case Receive => ReceiveOne(e.(inbox := e.inbox[1..]), e.inbox[0], clientId)
    case Fire(k) =>
      e.(table := Cancel(e.table, k), due := e.due + [TimedOut(k)], fate := e.fate[k := Expired])
    case RunCallback => e.(due := e.due[1..], ran := e.ran + [e.due[0]])
    case Tell(_) => e
    case Respond(_, _) => e
    case Close =>
      e.(open := false, table := ShutDown(e.table),
         fate := map k <- e.fate :: if e.fate[k].Waiting? then ShutDownWith else e.fate[k])
  }

  /** What the step puts on the wire, at the end of connection c. */
  function Outgoing(e: End, a: Action, c: nat): (ms: seq<Message>)
    requires Enabled(e, a)
  {
    match a
    case Transmit(k) => [Message(RequestWord(IdOf(k)), e.asked[k], Asks(k))]
    case Tell(payload) => [Message(0, payload, Tells)]
    case Respond(i, payload) =>
      var m := e.received[i];
      [Message(m.seqNum, payload, Answers(c, m.tag.issue, m.payload))]
    case _ => []
  }

  type Requests = map<nat, seq<byte>>

  ghost predicate Extends(a: Requests, b: Requests) {
    forall k <- a :: k in b && b[k] == a[k]
  }

  /** The callbacks of an end, run or owed, in order. */
  function Calls(e: End): (cbs: seq<Callback>) {
    e.ran + e.due
  }

  // ---- What holds in every run ----

  /**
   A message on its way to an end that has made the requests `mine`, from a peer that has made
   `theirs`.  An answer may have been led here from another connection; one that was not
   names a request this end did make, and carries its id.
   */
  ghost predicate MessageOk(m: Message, c: nat, mine: Requests, theirs: Requests) {
    match m.tag
    case Asks(k) => k > 0 && k in theirs && m.payload == theirs[k] && m.seqNum == RequestWord(IdOf(k))
    case Answers(d, k, request) =>
      && k > 0 && SeqId(m.seqNum) == IdOf(k)
      && (d == c ==> k in mine && request == mine[k])
    case Tells => m.seqNum == 0
  }

  /** What the application was given: a request of the peer under its id, or an unsolicited message. */
  ghost predicate ReceivedOk(m: Message, clientId: u16, theirs: Requests) {
    && !IsNewRequest(m.seqNum) && ClientId(m.seqNum) == clientId
    && match m.tag
       case Asks(k) => k > 0 && k in theirs && m.payload == theirs[k] && SeqId(m.seqNum) == IdOf(k)
       case Answers(_, _, _) => false
       case Tells => SeqId(m.seqNum) == 0
  }

  ghost predicate MailOk(e: End, c: nat, clientId: u16, theirs: Requests) {
    && (forall m <- e.inbox :: MessageOk(m, c, e.asked, theirs))
    && (forall m <- e.received :: ReceivedOk(m, clientId, theirs))
  }

  /** A reply callback was given an answer, as it came in. */
  ghost predicate RepliesOk(e: End, c: nat, theirs: Requests) {
    forall cb <- Calls(e) :: cb.Replied? ==> cb.msg.tag.Answers? && MessageOk(cb.msg, c, e.asked, theirs)
  }

  /** An end is in order: its list by issue, its requests by number, and its mail by what each message says it is. */
  ghost predicate EndOk(e: End, c: nat, clientId: u16, theirs: Requests) {
    && Ordered(e.table)
    && (forall k <- e.asked :: 1 <= k <= e.table.issued)
    && MailOk(e, c, clientId, theirs)
    && RepliesOk(e, c, theirs)
  }

  lemma FreshEnd(c: nat, clientId: u16, theirs: Requests)
    ensures EndOk(FRESH, c, clientId, theirs) && Ledger(FRESH) && InWindow(FRESH.table)
  {
  }

  /** More requests at the peer, and more mail, are all the same to an end. */
  lemma PeerMoves(e: End, c: nat, clientId: u16, theirs: Requests, more: Requests, ms: seq<Message>)
    requires EndOk(e, c, clientId, theirs) && Extends(theirs, more)
    requires forall m <- ms :: MessageOk(m, c, e.asked, more)
    ensures EndOk(e.(inbox := e.inbox + ms), c, clientId, more)
  {
    hide Ordered, IdOf;
  }

  /** More requests of its own, and other callbacks than replies, leave an end's mail in order. */
  lemma MailKept(e: End, r: End, c: nat, clientId: u16, theirs: Requests)
    requires MailOk(e, c, clientId, theirs) && RepliesOk(e, c, theirs) && Extends(e.asked, r.asked)
    requires r.inbox == e.inbox && r.received == e.received
    requires forall cb <- Calls(r) :: cb.Replied? ==> cb in Calls(e)
    ensures MailOk(r, c, clientId, theirs) && RepliesOk(r, c, theirs)
  {
    hide IdOf, Calls;
  }

  lemma MailTaken(e: End, c: nat, clientId: u16, theirs: Requests)
    requires MailOk(e, c, clientId, theirs) && e.inbox != []
    ensures MailOk(e.(inbox := e.inbox[1..]), c, clientId, theirs)
    ensures MessageOk(e.inbox[0], c, e.asked, theirs)
  {
  }

  /** How a message is taken goes by what it is: requests and unsolicited messages go up, answers to the table. */
  lemma MessageSorted(m: Message, c: nat, clientId: u16, mine: Requests, theirs: Requests)
    requires MessageOk(m, c, mine, theirs)
    ensures m.tag.Answers? <==> Classify(m.seqNum) == Kind.Reply
    ensures m.tag.Asks? <==> Classify(m.seqNum) == Kind.Request
    ensures !m.tag.Answers? ==> ReceivedOk(m.(seqNum := AppWord(m.seqNum, clientId)), clientId, theirs)
  {
    AppWordIsClean(m.seqNum, clientId);
    if m.tag.Asks? {
      RequestsAndRepliesApart(IdOf(m.tag.issue), clientId);
    }
  }

  lemma ReceiveKeepsMail(e: End, c: nat, clientId: u16, theirs: Requests)
    requires MailOk(e, c, clientId, theirs) && RepliesOk(e, c, theirs) && e.inbox != []
    ensures var r := ReceiveOne(e.(inbox := e.inbox[1..]), e.inbox[0], clientId);
      MailOk(r, c, clientId, theirs) && RepliesOk(r, c, theirs)
  {
    hide Answer, Classify, AppWord, IdOf, MessageOk, ReceivedOk, HasMatch, Matched;
    MailTaken(e, c, clientId, theirs);
    MessageSorted(e.inbox[0], c, clientId, e.asked, theirs);
  }

  /** The word an answer carries is the one its request was received under: no bit 15, and the request's id. */
  lemma ReceivedAt(e: End, c: nat, clientId: u16, theirs: Requests, i: nat)
    requires MailOk(e, c, clientId, theirs) && i < |e.received|
    ensures ReceivedOk(e.received[i], clientId, theirs)
  {
    assert e.received[i] in e.received;
  }

  /** What an end sends is in order for its peer; an answer that goes elsewhere is in order there too. */
  lemma SendsInOrder(e: End, a: Action, c: nat, clientId: u16, theirs: Requests)
    requires EndOk(e, c, clientId, theirs) && Enabled(e, a)
    ensures forall m <- Outgoing(e, a, c) :: MessageOk(m, c, theirs, e.asked)
    ensures a.Respond? ==> forall m <- Outgoing(e, a, c), d, mine, others |
      d != c :: MessageOk(m, d, mine, others)
  {
    hide Ordered, RepliesOk;
    if a.Respond? {
      ReceivedAt(e, c, clientId, theirs, a.i);
    }
  }

  lemma IssuedGrows(e: End, a: Action, clientId: u16)
    requires Enabled(e, a)
    ensures Act(e, a, clientId).table.issued >= e.table.issued
    ensures a.Register? ==> Act(e, a, clientId).table.issued == e.table.issued + 1
  {
  }

  function SeqIdOr1(s: u32): (id: RequestId) {
    if 1 <= SeqId(s) < 0x8000 then SeqId(s) else 1
  }

  lemma TableInOrder(e: End, a: Action, clientId: u16)
    requires Ordered(e.table) && Enabled(e, a)
    ensures Ordered(Act(e, a, clientId).table)
  {
    hide Ordered, Cancel, Answer, AppWord, IdOf;
    var id := if e.inbox == [] then 1 else SeqIdOr1(e.inbox[0].seqNum);
    StaysOrdered(e.table, if a.Fire? || a.SendFails? then a.issue else 1, id);
  }

  /** Every step of an end keeps it in order, whatever ids repeat and however late anything is. */
  lemma ActKeeps(e: End, a: Action, c: nat, clientId: u16, theirs: Requests)
    requires EndOk(e, c, clientId, theirs) && Enabled(e, a)
    ensures EndOk(Act(e, a, clientId), c, clientId, theirs)
    ensures Extends(e.asked, Act(e, a, clientId).asked)
  {
    hide MailOk, RepliesOk, Ordered, Cancel, Answer, Classify, AppWord, IdOf;
    var r := Act(e, a, clientId);
    IssuedGrows(e, a, clientId);
    TableInOrder(e, a, clientId);
    if a.Receive? {
      ReceiveKeepsMail(e, c, clientId, theirs);
    } else {
      MailKept(e, r, c, clientId, theirs);
    }
  }

  // ---- The ledger of requests ----

  /** Every id has a fate, and exactly the pending ones are waiting. */
  ghost predicate FatesOk(e: End) {
    && (forall k :: k in e.fate <==> 1 <= k <= e.table.issued)
    && (forall k <- e.fate :: e.fate[k].Waiting? <==> k in Issues(e.table.pending))
  }

  /** The fate that goes with a callback. */
  function FateOf(cb: Callback): (f: Fate) {
    if cb.Replied? then Answered else Expired
  }

  /** At most one callback per request, and exactly for those answered or expired. */
  ghost predicate CallsOk(e: End) {
    && (forall i, j :: 0 <= i < j < |Calls(e)| ==> Calls(e)[i].issue != Calls(e)[j].issue)
    && (forall cb <- Calls(e) :: cb.issue in e.fate && e.fate[cb.issue] == FateOf(cb))
    && (forall k <- e.fate :: e.fate[k].Answered? || e.fate[k].Expired? ==> exists cb <- Calls(e) :: cb.issue == k)
  }

  /** The live timers are those of the pending requests, and every request ever made is accounted for. */
  ghost predicate Ledger(e: End) {
    Valid(e.table) && FatesOk(e) && CallsOk(e)
  }

  /** A timeout or send failure finds its own request: no newer pending one has its id. */
  ghost predicate HitsOwn(e: End, a: Action)
    requires Enabled(e, a)
  {
    a.Fire? || a.SendFails? ==> forall x <- e.table.pending :: x.issue > a.issue ==> x.id != IdOf(a.issue)
  }

  lemma CallsExtend(e: End, r: End, n: nat)
    requires CallsOk(e) && n !in e.fate && n in r.fate && !r.fate[n].Answered? && !r.fate[n].Expired?
    requires r.fate == e.fate[n := r.fate[n]] && Calls(r) == Calls(e)
    ensures CallsOk(r)
  {
    hide Calls;
  }

  lemma IssuesOfRegister(t: Table)
    requires Valid(t)
    ensures t.issued + 1 !in Issues(t.pending)
    ensures Issues(RequestTable.Register(t).pending) == Issues(t.pending) + {t.issued + 1}
  {
    hide IdOf;
    var r := RequestTable.Register(t);
    assert r.pending[0].issue == t.issued + 1;
    assert forall e :: e in r.pending <==> e == r.pending[0] || e in t.pending;
  }

  /** Issuing an id, with or without leaving a request pending. */
  lemma RegisterKeepsLedger(e: End, a: Action, clientId: u16)
    requires Ledger(e) && (a.Register? || a.RegisterInVain?) && Enabled(e, a)
    ensures Ledger(Act(e, a, clientId))
  {
    hide Valid, IdOf;
    RegisterKeeps(e.table);
    IssuesOfRegister(e.table);
    CallsExtend(e, Act(e, a, clientId), e.table.issued + 1);
  }

  /** A waiting request is settled: it and its timer go, it gets its fate, and its callback is owed if it has one. */
  lemma SettleKeeps(e: End, r: End, k: nat, f: Fate, cbs: seq<Callback>)
    requires Ledger(e) && k in Issues(e.table.pending) && !f.Waiting?
    requires Valid(r.table) && r.table.issued == e.table.issued
    requires Issues(r.table.pending) == Issues(e.table.pending) - {k}
    requires r.fate == e.fate[k := f] && r.ran == e.ran && r.due == e.due + cbs
    requires if f.Answered? || f.Expired? then |cbs| == 1 && cbs[0].issue == k && FateOf(cbs[0]) == f else cbs == []
    ensures Ledger(r)
  {
    hide Valid;
    PendingIssued(e.table, k);
    assert FatesOk(r);
    assert Calls(r) == Calls(e) + cbs;
    CallsSettle(e, r, k, f, cbs);
  }

  lemma CallsSettle(e: End, r: End, k: nat, f: Fate, cbs: seq<Callback>)
    requires CallsOk(e) && k in e.fate && e.fate[k].Waiting? && !f.Waiting?
    requires r.fate == e.fate[k := f] && Calls(r) == Calls(e) + cbs
    requires if f.Answered? || f.Expired? then |cbs| == 1 && cbs[0].issue == k && FateOf(cbs[0]) == f else cbs == []
    ensures CallsOk(r)
  {
    hide Calls;
    forall j | j in r.fate && (r.fate[j].Answered? || r.fate[j].Expired?)
      ensures exists cb <- Calls(r) :: cb.issue == j
    {
      if j == k {
        assert cbs[0] in Calls(r);
      } else {
        var cb :| cb in Calls(e) && cb.issue == j;
        assert cb in Calls(r);
      }
    }
    forall i | 0 <= i < |Calls(e)| ensures Calls(e)[i].issue != k {
      assert Calls(e)[i] in Calls(e);
    }
  }

  lemma PendingIssued(t: Table, k: nat)
    requires Valid(t) && k in Issues(t.pending)
    ensures 1 <= k <= t.issued && k in t.timers
  {
  }

  lemma TimersAreIssues(t: Table)
    requires Valid(t)
    ensures t.timers == Issues(t.pending)
  {
  }

  /** A timeout or a send failure. */
  lemma CancelLedgerIff(e: End, a: Action, clientId: u16)
    requires Ledger(e) && (a.Fire? || a.SendFails?) && Enabled(e, a)
    ensures Ledger(Act(e, a, clientId)) <==> HitsOwn(e, a)
  {
    hide Valid, FatesOk, CallsOk, Cancel, IdOf;
    var r, k := Act(e, a, clientId), a.issue;
    CancelIff(e.table, k);
    TimersAreIssues(e.table);
    if HitsOwn(e, a) {
      assert Cancel(e.table, k).issued == e.table.issued by {
        CancelIssued(e.table, k);
      }
      SettleKeeps(e, r, k, if a.Fire? then Expired else SendFailed, if a.Fire? then [TimedOut(k)] else []);
    }
  }

  lemma CancelIssued(t: Table, k: nat)
    requires k > 0
    ensures Cancel(t, k).issued == t.issued
  {
  }

  /** A reply settles the request it is matched with, whether or not it answers it. */
  lemma ReceiveKeepsLedger(e: End, clientId: u16)
    requires Ledger(e) && Enabled(e, Receive)
    ensures Ledger(Act(e, Receive, clientId))
  {
    hide Valid, FatesOk, CallsOk, Answer, AppWord;
    var m, r := e.inbox[0], Act(e, Receive, clientId);
    if Classify(m.seqNum) == Kind.Reply && HasMatch(e.table, SeqId(m.seqNum)) {
      var id := SeqId(m.seqNum);
      var k := Matched(e.table, id).issue;
      AnswerKeeps(e.table, id);
      assert Answer(e.table, id).issued == e.table.issued by {
        AnswerIssued(e.table, id);
      }
      MatchedPending(e.table, id);
      SettleKeeps(e, r, k, Answered, [Replied(k, m)]);
    } else {
      SameLedger(e, r);
    }
  }

  lemma MatchedPending(t: Table, id: RequestId)
    requires HasMatch(t, id)
    ensures Matched(t, id).issue in Issues(t.pending)
  {
  }

  lemma AnswerIssued(t: Table, id: RequestId)
    ensures Answer(t, id).issued == t.issued
  {
  }

  /** A step that leaves the table, the fates and the callbacks alone. */
  lemma SameLedger(e: End, r: End)
    requires Ledger(e)
    requires r.table == e.table && r.fate == e.fate && Calls(r) == Calls(e)
    ensures Ledger(r)
  {
  }

  /** Closing an end settles every waiting request at once, and owes no callback for it. */
  lemma CloseKeepsLedger(e: End, clientId: u16)
    requires Ledger(e) && Enabled(e, Close)
    ensures Ledger(Act(e, Close, clientId))
  {
    hide IdOf;
    assert Calls(Act(e, Close, clientId)) == Calls(e);
  }

  /**
   The only steps that can put the ledger out of order are timeouts and send failures, and
   they do exactly when they find another request than their own.
   */
  lemma LedgerIff(e: End, a: Action, clientId: u16)
    requires Ledger(e) && Enabled(e, a)
    ensures Ledger(Act(e, a, clientId)) <==> HitsOwn(e, a)
  {
    hide Ledger, HitsOwn, Cancel, Answer, Classify, AppWord;
    match a
    case Register(_) => RegisterKeepsLedger(e, a, clientId); HitsNone(e, a);
    case RegisterInVain => RegisterKeepsLedger(e, a, clientId); HitsNone(e, a);
    case SendFails(_) => CancelLedgerIff(e, a, clientId);
    case Fire(_) => CancelLedgerIff(e, a, clientId);
    case Receive => ReceiveKeepsLedger(e, clientId); HitsNone(e, a);
    case Close => CloseKeepsLedger(e, clientId); HitsNone(e, a);
    case _ =>
      assert Calls(Act(e, a, clientId)) == Calls(e);
      SameLedger(e, Act(e, a, clientId));
      HitsNone(e, a);
  }

  lemma HitsNone(e: End, a: Action)
    requires Enabled(e, a) && !a.Fire? && !a.SendFails?
    ensures HitsOwn(e, a)
  {
  }

  // ---- The id window ----

  /** An id is only issued if no request then stays pending with 32767 newer ids issued. */
  ghost predicate KeepsWindow(e: End, a: Action) {
    match a
    case Register(_) => InWindow(RequestTable.Register(e.table))
    case RegisterInVain => InWindow(RequestTable.RegisterInVain(e.table))
    case _ => true
  }

  /** Nothing but issuing ids takes an end out of its window, and within it timeouts hit their own. */
  lemma ActKeepsWindow(e: End, a: Action, clientId: u16)
    requires InWindow(e.table) && Enabled(e, a) && KeepsWindow(e, a)
    ensures InWindow(Act(e, a, clientId).table)
    ensures Ledger(e) ==> HitsOwn(e, a)
  {
    hide IdOf, Classify, AppWord, CallsOk, FatesOk, Valid, InWindow;
    var r := Act(e, a, clientId);
    if !a.Register? && !a.RegisterInVain? {
      FewerPending(e, a, clientId);
    }
    if Ledger(e) && (a.Fire? || a.SendFails?) {
      CancelInWindow(e.table, a.issue);
      FirstIff(e.table, a.issue);
    }
  }

  lemma FewerPending(e: End, a: Action, clientId: u16)
    requires InWindow(e.table) && Enabled(e, a) && !a.Register? && !a.RegisterInVain?
    ensures InWindow(Act(e, a, clientId).table)
  {
    hide IdOf, Classify, AppWord, IndexOf;
  }

  // ---- Answers ----

  /** A reply's message was sent in answer to this very request: same connection, same issue, same payload. */
  predicate AnswersIt(asked: Requests, c: nat, cb: Callback)
    requires cb.Replied?
  {
    cb.issue in asked && cb.msg.tag == Answers(c, cb.issue, asked[cb.issue])
  }

  /** The answer that is next to be received was given at this connection, less than a round of ids ago. */
  predicate InTime(e: End, c: nat)
    requires e.inbox != [] && e.inbox[0].tag.Answers?
  {
    e.inbox[0].tag.conn == c && e.table.issued - e.inbox[0].tag.issue < REQUEST_IDS
  }

  /**
   The answer that is next to be received meets a request it was not given for: one with its
   id is pending here though it comes from another connection, or a newer one is, or its own
   is gone and an older one is.
   */
  ghost predicate MeetsAnother(e: End, c: nat)
    requires e.inbox != [] && e.inbox[0].tag.Answers?
  {
    var k := e.inbox[0].tag.issue;
    if e.inbox[0].tag.conn != c then k > 0 && exists x <- e.table.pending :: x.id == IdOf(k)
    else
      || (exists x <- e.table.pending :: x.issue > k && (x.issue - k) % REQUEST_IDS == 0)
      || (k !in Issues(e.table.pending)
          && exists x <- e.table.pending :: x.issue < k && (k - x.issue) % REQUEST_IDS == 0)
  }
}
