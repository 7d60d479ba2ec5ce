/** The request database of one connection end, as `af_ipc_common.c` keeps it: a linked list under a mutex. */
module RequestControl {
  import opened Bytes
  import opened SeqNum
  import opened Framing
  import opened RequestTable

  class Request {
    var next: Request?
    var seqNum: u32
    /** The `event` pointer is set. */
    var hasEvent: bool
    var timeoutVal: int
    /** Callback and context, as one opaque value; 0 is the null callback. */
    var callback: nat
    ghost var issue: nat

    constructor ()
      ensures next == null && !hasEvent
    {
      next, seqNum, hasEvent, timeoutVal, callback, issue := null, 0, false, 0, 0, 0;
    }
  }

  class RequestControl {
    var lastSeqId: u16
    var pendingRequests: Request?
    /** The list as a sequence of nodes. */
    ghost var nodes: seq<Request>
    /** Every node that was ever in the list. */
    ghost var repr: set<Request>
    /** The abstract table; its timers are the ones libevent holds. */
    ghost var table: Table

    ghost function At(i: int): (r: Request?)
      reads `nodes
    {
      if 0 <= i < |nodes| then nodes[i] else null
    }

    /** The list is `nodes`, and no node is in it twice. */
    ghost predicate Chained()
      reads `nodes, `pendingRequests, `repr, repr`next
    {
      && (forall i :: 0 <= i < |nodes| ==> nodes[i] in repr)
      && (forall i, j :: 0 <= i < j < |nodes| ==> nodes[i] != nodes[j])
      && pendingRequests == At(0)
      && (forall i :: 0 <= i < |nodes| ==> nodes[i].next == At(i + 1))
    }

    /** These nodes carry these entries. */
    ghost predicate Listed(ns: seq<Request>, es: seq<Entry>)
      reads ns
    {
      |es| == |ns| && forall i :: 0 <= i < |ns| ==> es[i].id == ns[i].seqNum && es[i].issue == ns[i].issue
    }

    /** The list and the counter are those of the table. */
    ghost predicate Linked()
      reads this, repr
    {
      && Chained()
      && |table.pending| == |nodes|
      && (forall i :: 0 <= i < |nodes| ==>
            table.pending[i].id == nodes[i].seqNum && table.pending[i].issue == nodes[i].issue)
      && lastSeqId == Nth(table.issued, REQUEST_IDS)
    }

    /** These requests have a timeout and an `event`. */
    ghost predicate Timed(ns: seq<Request>)
      reads ns
    {
      forall i :: 0 <= i < |ns| ==> ns[i].hasEvent && ns[i].timeoutVal > 0
    }

    /**
     Between critical sections: every pending request owns a timer, there are no others, and
     an `event` pointer is set exactly while libevent holds that timer.
     */
    ghost predicate AtRest()
      reads this, repr
    {
      && Linked()
      && Valid(table)
      && Timed(nodes)
    }

    constructor ()
      ensures AtRest() && table == EMPTY && nodes == [] && repr == {}
    {
      lastSeqId, pendingRequests := 0, null;
      nodes, repr, table := [], {}, EMPTY;
    }

    /** A fresh node at the head of the list, if the pool has one. */
    method FindUnusedRequest(available: bool) returns (r: Request?)
      requires Chained()
      modifies this`pendingRequests, this`nodes, this`repr
      ensures available <==> r != null
      ensures r != null ==> fresh(r) && !r.hasEvent && nodes == [r] + old(nodes) && repr == old(repr) + {r}
      ensures r == null ==> nodes == old(nodes) && repr == old(repr)
      ensures Chained()
    {
      if !available {
        return null;
      }
      r := new Request();
      r.next := pendingRequests;
      pendingRequests := r;
      nodes, repr := [r] + nodes, repr + {r};
    }

    method GenSeqId(ghost n: nat) returns (id: RequestId)
      requires lastSeqId == Nth(n, REQUEST_IDS)
      modifies this`lastSeqId
      ensures id == lastSeqId == IdOf(n + 1)
    {
      RequestIdIsNth(n);
      lastSeqId := (lastSeqId + 1) % 0x8000;
      if lastSeqId == 0 {
        lastSeqId := lastSeqId + 1;
      }
      return lastSeqId;
    }

    /** The first node with this sequence number and the node before it. */
    method FindNode(seqNum: RequestId) returns (request: Request?, prev: Request?, ghost i: nat)
      requires Linked()
      ensures i == IndexOf(table.pending, seqNum) && request == At(i)
      ensures request != null ==> prev == At(i - 1) && request in repr
    {
      request, prev, i := pendingRequests, null, 0;
      while request != null && request.seqNum != seqNum
        invariant i <= |nodes| && request == At(i) && prev == At(i - 1)
        invariant forall j :: 0 <= j < i ==> table.pending[j].id != seqNum
        decreases |nodes| - i
      {
        prev := request;
        request := request.next;
        i := i + 1;
      }
      IndexIs(table.pending, seqNum, i);
    }

    /** Takes the i-th node out of the list. */
    method Unlink(request: Request, prev: Request?, ghost i: nat)
      requires Chained() && i < |nodes| && request == nodes[i] && prev == At(i - 1)
      modifies this`pendingRequests, this`nodes, repr`next
      ensures nodes == Removed(old(nodes), i)
      ensures Chained()
    {
      hide Removed;
      ghost var ns := nodes;
      if prev != null {
        prev.next := request.next;
      } else {
        pendingRequests := request.next;
      }
      nodes := Removed(nodes, i);
      RemovedDistinct(ns, i);
      forall j | 0 <= j < |nodes| ensures nodes[j] in repr && nodes[j].next == At(j + 1) {
        var k := if j < i then j else j + 1;
        assert nodes[j] == ns[k];
        assert k != i - 1 ==> ns[k] != prev;
      }
    }

    /** Unlinks the first node with this sequence number, and leaves the rest of the list in order. */
    method RemoveRequest(seqNum: RequestId)
      requires Linked()
      modifies this`pendingRequests, this`nodes, this`table, repr`next
      ensures Linked() && table == old(table).(pending := Without(old(table.pending), seqNum))
      ensures var i := IndexOf(old(table.pending), seqNum);
        nodes == if i < old(|nodes|) then Removed(old(nodes), i) else old(nodes)
    {
      hide Removed, Chained, Nth, IndexOf;
      var request, prev, i := FindNode(seqNum);
      if request != null {
        Unlink(request, prev, i);
        table := table.(pending := Without(table.pending, seqNum));
      }
    }

    /** `event_del` and `event_free` of a request's timer, if it has one. */
    method DropTimer(r: Request)
      modifies this`table, r`hasEvent
      ensures !r.hasEvent
      ensures table == if old(r.hasEvent) then old(table).(timers := old(table.timers) - {r.issue}) else old(table)
    {
      if r.hasEvent {
        table := table.(timers := table.timers - {r.issue});
        r.hasEvent := false;
      }
    }

    lemma NodeOf(r: Request) returns (i: nat)
      requires AtRest() && r in nodes
      ensures i < |nodes| && nodes[i] == r && table.pending[i].issue == r.issue
      ensures r.issue in table.timers && r.issue > 0 && r.seqNum == IdOf(r.issue)
      ensures forall j, k :: 0 <= j < k < |nodes| ==> nodes[j] != nodes[k]
    {
      i :| 0 <= i < |nodes| && nodes[i] == r;
      assert table.pending[i] in table.pending;
    }

    /** A request's timer goes, and then the first node with the request's sequence number. */
    method Drop(r: Request)
      requires AtRest() && r in nodes
      modifies this`pendingRequests, this`nodes, this`table, repr`next, r`hasEvent
      ensures r.issue > 0 && Linked() && table == Cancel(old(table), r.issue)
      ensures AtRest() <==> FirstIs(old(table), r.issue)
    {
      hide IdOf, Valid, IndexOf, Removed, Chained, Nth, FirstIs;
      ghost var t, ns := table, nodes;
      ghost var j := NodeOf(r);
      DropTimer(r);
      RemoveRequest(r.seqNum);
      CancelIffFirst(t, r.issue);
      if FirstIs(t, r.issue) {
        FirstIndex(t, r.issue, j);
        RemovedElements(ns, j);
      }
    }

    /**
     The critical section of `af_ipc_send`: a node, an id and a timer, or nothing.  The id
     is used up even if the timer cannot be made.
     */
    method RegisterRequest(available: bool, timerAvailable: bool, callback: nat, timeoutMs: int)
      returns (req: Request?, id: RequestId)
      requires AtRest() && timeoutMs > 0
      modifies this, repr`next
      ensures AtRest()
      ensures table == if !available then old(table)
        else if !timerAvailable then RegisterInVain(old(table))
        else Register(old(table))
      ensures req != null <==> available && timerAvailable
      ensures req != null ==>
        && fresh(req) && nodes == [req] + old(nodes) && id == req.seqNum == IdOf(table.issued)
        && req.callback == callback && req.issue == table.issued
      ensures req == null ==> nodes == old(nodes)
      ensures fresh(repr - old(repr))
    {
      hide IdOf, Nth, Chained, Valid;
      ghost var t, ns := table, nodes;
      id := 1;
      req := FindUnusedRequest(available);
      if req == null {
        return;
      }
      id := GenSeqId(t.issued);
      FillIn(req, id, callback, timeoutMs, t, ns);
      RegisterKeeps(t);
      if timerAvailable {
        ArmTimer(req, t, ns);
      } else {
        RemoveNewest(req, t, ns);
        req := null;
      }
    }

    method ArmTimer(req: Request, ghost t: Table, ghost ns: seq<Request>)
      requires Linked() && table == Register(t).(timers := t.timers) && Valid(Register(t))
      requires nodes == [req] + ns && Timed(ns) && req.timeoutVal > 0
      modifies this`table, req`hasEvent
      ensures AtRest() && table == Register(t)
    {
      hide Chained, Valid, Nth, IdOf;
      req.hasEvent := true;
      table := Register(t);
    }

    method RemoveNewest(req: Request, ghost t: Table, ghost ns: seq<Request>)
      requires Linked() && table == Register(t).(timers := t.timers) && Valid(RegisterInVain(t))
      requires nodes == [req] + ns && Timed(ns) && 1 <= req.seqNum < 0x8000
      modifies this`pendingRequests, this`nodes, this`table, repr`next
      ensures AtRest() && table == RegisterInVain(t) && nodes == ns
    {
      hide Chained, Nth, Valid, Without, Removed, IndexOf, IdOf;
      NewestRemoved(t, req, ns);
      assert nodes[0] == req;
      RemoveRequest(req.seqNum);
    }

    method FillIn(req: Request, id: RequestId, callback: nat, timeoutMs: int, ghost t: Table, ghost ns: seq<Request>)
      requires Chained() && nodes == [req] + ns && Listed(ns, t.pending) && id == lastSeqId == IdOf(t.issued + 1)
      modifies this`table, req`seqNum, req`callback, req`timeoutVal, req`hasEvent, req`issue
      ensures Linked() && table == Register(t).(timers := t.timers)
      ensures req.seqNum == id && req.callback == callback && req.timeoutVal == timeoutMs && req.issue == t.issued + 1
      ensures !req.hasEvent
    {
      hide Listed, Chained, Linked;
      NotBehind(req, ns);
      req.seqNum, req.callback, req.timeoutVal, req.hasEvent := id, callback, timeoutMs, false;
      req.issue := t.issued + 1;
      table := Register(t).(timers := t.timers);
      ListedCons(req, ns, table.pending[0], t.pending);
      LinkedWhen();
    }

    lemma ListedCons(r: Request, ns: seq<Request>, e: Entry, es: seq<Entry>)
      requires Listed(ns, es) && e.id == r.seqNum && e.issue == r.issue
      ensures Listed([r] + ns, [e] + es)
    {
    }

    lemma LinkedWhen()
      requires Chained() && Listed(nodes, table.pending) && table.issued > 0 && lastSeqId == IdOf(table.issued)
      ensures Linked()
    {
      hide Chained;
    }

    lemma NotBehind(r: Request, ns: seq<Request>)
      requires Chained() && nodes == [r] + ns
      ensures r !in ns
    {
      forall i | 0 <= i < |ns| ensures ns[i] != r {
        assert nodes[i + 1] == ns[i];
      }
    }

    /** libevent fires the timer of a request: the section of `af_ipc_on_timeout`, and the callback to run after it. */
    method OnTimeout(req: Request) returns (callback: nat)
      requires AtRest() && req in nodes
      modifies this`pendingRequests, this`nodes, this`table, repr`next, req`hasEvent
      ensures callback == req.callback
      ensures req.issue > 0 && Linked() && table == Cancel(old(table), req.issue)
      ensures AtRest() <==> FirstIs(old(table), req.issue)
    {
      callback := req.callback;
      Drop(req);
    }

    /** A reply arrives: the section of the receive loop, and the callback to run after it. */
    method OnReply(seqNum: RequestId) returns (found: bool, callback: nat, ghost issue: nat)
      requires AtRest()
      modifies this`pendingRequests, this`nodes, this`table, repr`next, repr`hasEvent
      ensures AtRest() && table == Answer(old(table), seqNum)
      ensures found <==> HasMatch(old(table), seqNum)
      ensures found ==>
        && issue == Matched(old(table), seqNum).issue
        && callback == old(nodes[IndexOf(table.pending, seqNum)].callback)
      ensures !found ==> nodes == old(nodes) && callback == 0
    {
      hide IdOf, Valid, Removed, Chained, Nth, IndexOf, Without;
      AnswerKeeps(table, seqNum);
      var pendingReq, _, i := FindNode(seqNum);
      if pendingReq == null {
        return false, 0, 0;
      }
      found, callback, issue := true, pendingReq.callback, pendingReq.issue;
      Settle(pendingReq, seqNum, i);
    }

    /** The request a reply is matched with goes, and its timer. */
    method Settle(r: Request, seqNum: RequestId, ghost i: nat)
      requires AtRest() && HasMatch(table, seqNum) && i == IndexOf(table.pending, seqNum) && r == At(i)
      modifies this`pendingRequests, this`nodes, this`table, repr`next, r`hasEvent
      ensures AtRest() && table == Answer(old(table), seqNum)
    {
      hide IdOf, Valid, Removed, Chained, Nth, IndexOf, Without;
      ghost var t, ns := table, nodes;
      AnswerKeeps(t, seqNum);
      ghost var j := NodeOf(r);
      if r.timeoutVal > 0 {
        DropTimer(r);
      }
      RemoveRequest(seqNum);
      RemovedElements(ns, i);
    }

    method DropTimers()
      requires AtRest()
      modifies this`table, repr`hasEvent
      ensures table == old(table).(timers := {})
    {
      hide Ordered;
      var req := pendingRequests;
      ghost var i, t := 0, table;
      while req != null
        invariant i <= |nodes| && req == At(i)
        invariant table == t.(timers := Issues(t.pending[i..]))
        invariant forall j :: i <= j < |nodes| ==> nodes[j].hasEvent
        decreases |nodes| - i
      {
        TimersFrom(t, i);
        DropTimer(req);
        req := req.next;
        i := i + 1;
      }
    }

    /** `af_ipc_util_shutdown_requests`: every timer is dropped, then the whole list. */
    method ShutdownRequests()
      requires AtRest()
      modifies this`pendingRequests, this`nodes, this`table, repr`hasEvent
      ensures AtRest() && table == ShutDown(old(table))
      ensures nodes == [] && table.pending == [] && table.timers == {} && table.issued == old(table.issued)
    {
      DropTimers();
      pendingRequests := null;
      nodes, table := [], table.(pending := []);
    }
  }

  /** What a send that nothing else interferes with does to the table. */
  function TableAfterSend(t: Table, payload: seq<byte>, timeoutMs: int,
                          available: bool, timerAvailable: bool, sendOk: bool): (r: Table)
  {
    if |payload| + HEADER_LEN > MAX_MSGLEN || timeoutMs <= 0 || !available then t
    else if timerAvailable && sendOk then Register(t)
    else RegisterInVain(t)
  }

  /**
   `af_ipc_send`, when no other thread or timer comes between its two critical sections.
   It sends one whole frame or none, and leaves a request pending only if it sent it.
   */
  method Send(rc: RequestControl?, seqNum: u32, payload: seq<byte>, callback: nat, timeoutMs: int,
              available: bool, timerAvailable: bool, sendOk: bool)
    returns (r: int, wire: seq<byte>)
    requires rc != null ==> rc.AtRest()
    modifies rc, if rc == null then {} else rc.repr
    ensures r == 0 || (r == -1 && wire == [])
    ensures r == 0 <==>
      && |payload| + HEADER_LEN <= MAX_MSGLEN && sendOk
      && (timeoutMs > 0 ==> rc != null && available && timerAvailable)
    ensures r == 0 && timeoutMs <= 0 ==> wire == Encode(Frame(seqNum, payload))
    ensures r == 0 && timeoutMs > 0 ==>
      && rc.table.issued > 0
      && wire == Encode(Frame(RequestWord(IdOf(rc.table.issued)), payload))
    ensures rc != null ==>
      && rc.AtRest() && fresh(rc.repr - old(rc.repr))
      && rc.table == TableAfterSend(old(rc.table), payload, timeoutMs, available, timerAvailable, sendOk)
    ensures rc != null && (r == -1 || timeoutMs <= 0) ==>
      rc.table.pending == old(rc.table.pending) && rc.table.timers == old(rc.table.timers)
    ensures r == 0 && timeoutMs > 0 ==>
      && rc.table.issued == old(rc.table.issued) + 1
      && rc.table.pending == [Entry(IdOf(rc.table.issued), rc.table.issued)] + old(rc.table.pending)
      && rc.table.timers == old(rc.table.timers) + {rc.table.issued}
  {
    hide Encode, Nth, IdOf, Valid, RequestControl.Chained, RequestControl.Linked;
    if |payload| + HEADER_LEN > MAX_MSGLEN {
      return -1, [];
    }
    var word := seqNum;
    var req: Request? := null;
    if timeoutMs > 0 {
      if rc == null {
        return -1, [];
      }
      var id;
      req, id := rc.RegisterRequest(available, timerAvailable, callback, timeoutMs);
      if req == null {
        return -1, [];
      }
      word := RequestWord(id);
    }
    if !sendOk {
      if req != null {
        assert rc.nodes[0] == req;
        CancelNewest(old(rc.table));
        rc.Drop(req);
      }
      return -1, [];
    }
    return 0, Encode(Frame(word, payload));
  }

  lemma CancelNewest(t: Table)
    requires Valid(t)
    ensures var r := Register(t);
      Cancel(r, r.issued) == RegisterInVain(t) && FirstIs(r, r.issued)
  {
    assert t.issued + 1 !in Issues(t.pending);
    assert Register(t).timers - {t.issued + 1} == t.timers;
  }

  lemma CancelIffFirst(t: Table, k: nat)
    requires Valid(t) && k in t.timers
    ensures k > 0 && (Valid(Cancel(t, k)) <==> FirstIs(t, k))
  {
    FirstIff(t, k);
    CancelIff(t, k);
  }

  lemma FirstIndex(t: Table, k: nat, j: nat)
    requires Valid(t) && FirstIs(t, k) && j < |t.pending| && t.pending[j].issue == k
    ensures IndexOf(t.pending, IdOf(k)) == j
  {
  }

  lemma RemovedElements<T>(es: seq<T>, i: nat)
    requires i < |es| && forall j, k :: 0 <= j < k < |es| ==> es[j] != es[k]
    ensures forall e :: e in Removed(es, i) <==> e in es && e != es[i]
  {
    forall e ensures e in Removed(es, i) <==> e in es && e != es[i] {
      if e in es && e != es[i] {
        var j :| 0 <= j < |es| && es[j] == e;
        assert Removed(es, i)[if j < i then j else j - 1] == e;
      }
    }
  }

  /** The newest entry is the first with its id. */
  lemma NewestRemoved(t: Table, r: Request, ns: seq<Request>)
    ensures var es := Register(t).pending;
      && es[0].id == IdOf(t.issued + 1)
      && IndexOf(es, es[0].id) == 0 && Without(es, es[0].id) == t.pending
    ensures Removed([r] + ns, 0) == ns
  {
  }

  lemma TimersFrom(t: Table, i: nat)
    requires i < |t.pending| && Ordered(t)
    ensures Issues(t.pending[i + 1..]) == Issues(t.pending[i..]) - {t.pending[i].issue}
  {
    assert t.pending[i..] == [t.pending[i]] + t.pending[i + 1..];
  }

  lemma IndexIs(es: seq<Entry>, id: RequestId, i: nat)
    requires i <= |es| && (i < |es| ==> es[i].id == id)
    requires forall j :: 0 <= j < i ==> es[j].id != id
    ensures IndexOf(es, id) == i
  {
  }
}
