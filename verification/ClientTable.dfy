/** The server's list of clients, as `af_ipc_server.c` keeps it, and the routing of what it sends. */
module ClientTable {
  import opened Bytes
  import opened SeqNum
  import opened Framing
  import opened ClientIds
  import RequestTable

  class Client {
    var next: Client?
    var cid: u16

    constructor ()
      ensures next == null && cid == 0
    {
      next, cid := null, 0;
    }
  }

  class Server {
    var clients: Client?
    var lastCid: u16
    /** The list as a sequence of nodes and as slots, every node there ever was, and the counter's ticks. */
    ghost var nodes: seq<Client>
    ghost var slots: seq<Slot>
    ghost var repr: set<Client>
    ghost var ticks: nat

    ghost function At(i: int): (c: Client?)
      reads `nodes
    {
      if 0 <= i < |nodes| then nodes[i] else null
    }

    ghost predicate Chained()
      reads `nodes, `clients, `repr, repr`next
    {
      && (forall i :: 0 <= i < |nodes| ==> nodes[i] in repr)
      && (forall i, j :: 0 <= i < j < |nodes| ==> nodes[i] != nodes[j])
      && clients == At(0)
      && (forall i :: 0 <= i < |nodes| ==> nodes[i].next == At(i + 1))
    }

    ghost predicate Valid()
      reads this, repr
    {
      && Chained()
      && |slots| == |nodes|
      && (forall i :: 0 <= i < |nodes| ==> slots[i].cid == nodes[i].cid)
      && lastCid == Nth(ticks, CLIENT_IDS)
      && Distinct(slots, ticks)
    }

    constructor ()
      ensures Valid() && slots == [] && nodes == [] && repr == {} && ticks == 0
    {
      clients, lastCid := null, 0;
      nodes, slots, repr, ticks := [], [], {}, 0;
    }

    /** The place of the first client with this id; the length of the list if there is none. */
    ghost function IndexOf(cid: int): (i: nat)
      reads `slots
      ensures i <= |slots|
      ensures i < |slots| <==> cid in Cids(slots)
      ensures i < |slots| ==> slots[i].cid == cid
      ensures forall j :: 0 <= j < i ==> slots[j].cid != cid
    {
      SlotIndex(slots, cid)
    }

    method FindClientByCid(cid: int) returns (c: Client?, ghost i: nat)
      requires Valid()
      ensures i == IndexOf(cid) && c == At(i)
      ensures c != null <==> cid in Cids(slots)
      ensures c != null ==> c.cid == cid
    {
      hide Distinct, Nth;
      c, i := clients, 0;
      while c != null && c.cid != cid
        invariant i <= |nodes| && c == At(i)
        invariant forall j :: 0 <= j < i ==> slots[j].cid != cid
        decreases |nodes| - i
      {
        c := c.next;
        i := i + 1;
      }
      SlotIndexIs(slots, cid, i);
    }

    /**
     The next id no client holds.  Every value the counter skipped on the way is held by
     some client, and there are at most as many of those as there are clients.
     */
    method GetNextCid() returns (cid: u16)
      requires Valid() && |nodes| < CLIENT_IDS
      modifies `lastCid, `ticks
      ensures Valid() && ticks > old(ticks) && cid == lastCid == CidOf(ticks) && cid != 0
      ensures cid !in Cids(slots)
      ensures AllHeld(old(ticks), ticks - 1, Cids(slots))
      ensures ticks - old(ticks) <= |nodes| + 1
    {
      hide Distinct, Nth, Chained, AllHeld, Cids;
      ghost var before := ticks;
      NoneHeld(before, Cids(slots));
      while true
        invariant before <= ticks <= before + |nodes|
        invariant AllHeld(before, ticks, Cids(slots))
        invariant Valid()
        decreases before + |nodes| - ticks
      {
        AdvanceCid();
        var c, _ := FindClientByCid(lastCid);
        if c == null {
          return lastCid;
        }
        OneMoreHeld(before, ticks - 1, Cids(slots));
        FreeIdSoon(before, ticks, slots);
      }
    }

    /** The counter's step: it wraps at 16 bits and skips 0. */
    method AdvanceCid()
      requires Valid()
      modifies `lastCid, `ticks
      ensures Valid() && ticks == old(ticks) + 1 && lastCid == CidOf(ticks) && lastCid != 0
    {
      hide Chained;
      ClientIdIsNth(ticks);
      DistinctLater(slots, ticks);
      lastCid := (lastCid + 1) % 0x1_0000;
      if lastCid == 0 {
        lastCid := lastCid + 1;
      }
      ticks := ticks + 1;
    }

    /** `alloc_and_init_client`: a new client at the head of the list, or none; an id may be used up in vain. */
    method AllocAndInitClient(available: bool, initOk: bool) returns (c: Client?)
      requires Valid() && |nodes| < CLIENT_IDS
      modifies this
      ensures Valid() && fresh(repr - old(repr))
      ensures c != null <==> available && initOk
      ensures !available ==> ticks == old(ticks)
      ensures available ==>
        && old(ticks) < ticks <= old(ticks) + old(|nodes|) + 1
        && CidOf(ticks) !in Cids(old(slots))
        && AllHeld(old(ticks), ticks - 1, Cids(old(slots)))
      ensures c == null ==> slots == old(slots) && nodes == old(nodes)
      ensures c != null ==>
        && fresh(c) && c.cid == CidOf(ticks) && nodes == [c] + old(nodes)
        && slots == [Slot(CidOf(ticks), ticks)] + old(slots)
    {
      hide Distinct, Nth, CidOf, Cids, AllHeld, Chained;
      if !available {
        return null;
      }
      ghost var before := ticks;
      c := new Client();
      var cid := GetNextCid();
      AcceptKeeps(slots, before, ticks);
      NotListed(c);
      c.cid := cid;
      if !initOk {
        return null;
      }
      Link(c);
      slots := [Slot(cid, ticks)] + slots;
    }

    lemma NotListed(c: Client)
      requires Chained() && c !in repr
      ensures forall i :: 0 <= i < |nodes| ==> nodes[i] != c
    {
    }

    method Link(c: Client)
      requires Chained() && c !in repr
      modifies `clients, `nodes, `repr, c`next
      ensures Chained() && nodes == [c] + old(nodes) && repr == old(repr) + {c}
    {
      c.next := clients;
      clients := c;
      nodes, repr := [c] + nodes, repr + {c};
    }

    /** `close_client`: unlinks this client, and leaves the others in order.  The ids stay distinct. */
    method CloseClient(client: Client) returns (ghost i: nat)
      requires Valid()
      modifies `clients, `nodes, `slots, repr`next
      ensures Valid()
      ensures i < |old(nodes)| <==> client in old(nodes)
      ensures i < |old(nodes)| ==>
        && old(nodes)[i] == client
        && nodes == RequestTable.Removed(old(nodes), i)
        && slots == RequestTable.Removed(old(slots), i)
      ensures i >= |old(nodes)| ==> slots == old(slots) && nodes == old(nodes)
    {
      hide Distinct, Nth, RequestTable.Removed;
      var c, last;
      c, last, i := Locate(client);
      if c != null {
        DistinctWithout(slots, ticks, i);
        Unlink(c, last, i);
        slots := RequestTable.Removed(slots, i);
      }
    }

    method Locate(client: Client) returns (c: Client?, last: Client?, ghost i: nat)
      requires Chained()
      ensures i < |nodes| <==> client in nodes
      ensures i <= |nodes| && c == At(i) && last == At(i - 1)
      ensures c != null ==> c == client
    {
      c, last, i := clients, null, 0;
      while c != null && c != client
        invariant i <= |nodes| && c == At(i) && last == At(i - 1)
        invariant forall j :: 0 <= j < i ==> nodes[j] != client
        decreases |nodes| - i
      {
        last := c;
        c := c.next;
        i := i + 1;
      }
    }

    method Unlink(c: Client, last: Client?, ghost i: nat)
      requires Chained() && i < |nodes| && c == nodes[i] && last == At(i - 1)
      modifies `clients, `nodes, repr`next
      ensures nodes == RequestTable.Removed(old(nodes), i)
      ensures Chained()
    {
      hide RequestTable.Removed;
      ghost var ns := nodes;
      if last != null {
        last.next := c.next;
      } else {
        clients := c.next;
      }
      nodes := RequestTable.Removed(nodes, i);
      RequestTable.RemovedDistinct(ns, i);
      forall j | 0 <= j < |nodes| ensures nodes[j] in repr && nodes[j].next == At(j + 1) {
        var k := if j < i then j else j + 1;
        assert nodes[j] == ns[k];
        assert k != i - 1 ==> ns[k] != last;
      }
    }

    /** Closes the client a search found, and no other. */
    method CloseFound(c: Client, ghost i: nat)
      requires Valid() && i < |nodes| && c == nodes[i]
      modifies `clients, `nodes, `slots, repr`next
      ensures Valid() && nodes == RequestTable.Removed(old(nodes), i) && slots == RequestTable.Removed(old(slots), i)
    {
      hide Distinct, Nth, RequestTable.Removed;
      ghost var j := CloseClient(c);
      assert i == j;
    }

    /**
     `af_ipcs_send_response`: the response goes to the client the sequence number names and
     to no other; one that names no live client, or no request, is refused.  A client that
     cannot be sent to is closed, and the others stay in order.
     */
    method SendResponse(seqNum: u32, payload: seq<byte>, sendOk: bool)
      returns (result: int, to: Client?, wire: seq<byte>)
      requires Valid()
      modifies `clients, `nodes, `slots, repr`next
      ensures Valid()
      ensures to != null <==> SeqId(seqNum) != 0 && ClientId(seqNum) in Cids(old(slots))
      ensures to != null ==> to == old(nodes[IndexOf(ClientId(seqNum))]) && to.cid == ClientId(seqNum)
      ensures result == 0 <==> to != null && sendOk && |payload| + HEADER_LEN <= MAX_MSGLEN
      ensures result == 0 ==> wire == Encode(Frame(seqNum, payload))
      ensures result != 0 ==> result == -1 && wire == []
      ensures if to == null || result == 0 then slots == old(slots) && nodes == old(nodes)
        else
          && slots == RequestTable.Removed(old(slots), old(IndexOf(ClientId(seqNum))))
          && nodes == RequestTable.Removed(old(nodes), old(IndexOf(ClientId(seqNum))))
    {
      hide Distinct, Nth, Encode, RequestTable.Removed;
      result, to, wire := -1, null, [];
      if SeqId(seqNum) != 0 {
        var c, i := FindClientByCid(ClientId(seqNum));
        to := c;
        if to != null {
          if |payload| + HEADER_LEN > MAX_MSGLEN || !sendOk {
            CloseFound(to, i);
            return;
          }
          result, wire := 0, Encode(Frame(seqNum, payload));
        }
      }
    }

    /**
     `af_ipcs_send_unsolicited`: under id 0 the frame is offered to every client once, in the
     order of the list, whether or not sends fail; under any other id to the client that has
     it, which is closed if the send fails, or to no one.  `wires[i]` is what `to[i]` is sent,
     and `failing` are the clients whose `sendmsg` fails.
     */
    method SendUnsolicited(cid: u16, payload: seq<byte>, failing: set<Client>)
      returns (result: int, to: seq<Client>, wires: seq<seq<byte>>)
      requires Valid()
      modifies `clients, `nodes, `slots, repr`next
      ensures Valid()
      ensures to ==
        (if cid == 0 then old(nodes) else if cid in Cids(old(slots)) then [old(nodes[IndexOf(cid)])] else [])
      ensures |wires| == |to| && forall i :: 0 <= i < |to| ==>
        wires[i] == if |payload| + HEADER_LEN > MAX_MSGLEN || to[i] in failing then [] else Encode(Frame(0, payload))
      ensures cid == 0 ==> result == 0
      ensures cid != 0 ==> result == if to == [] || wires[0] == [] then -1 else 0
      ensures if to == [] || result == 0 then slots == old(slots) && nodes == old(nodes)
        else
          && slots == RequestTable.Removed(old(slots), old(IndexOf(cid)))
          && nodes == RequestTable.Removed(old(nodes), old(IndexOf(cid)))
    {
      hide Distinct, Nth, Encode, RequestTable.Removed;
      result, to, wires := 0, [], [];
      if cid == 0 {
        var c := clients;
        while c != null
          invariant |wires| == |to| <= |nodes| && c == At(|to|) && to == nodes[..|to|]
          invariant forall i :: 0 <= i < |to| ==> wires[i] == Sent(payload, to[i] in failing)
          decreases |nodes| - |to|
        {
          to, wires := to + [c], wires + [Sent(payload, c in failing)];
          c := c.next;
        }
      } else {
        var c, i := FindClientByCid(cid);
        if c == null {
          return -1, [], [];
        }
        to, wires := [c], [Sent(payload, c in failing)];
        if |payload| + HEADER_LEN > MAX_MSGLEN || c in failing {
          result := -1;
          CloseFound(c, i);
        }
      }
    }
  }

  /** What one unsolicited send puts on the wire: the whole frame or nothing. */
  function Sent(payload: seq<byte>, fails: bool): (s: seq<byte>) {
    if |payload| + HEADER_LEN > MAX_MSGLEN || fails then [] else Encode(Frame(0, payload))
  }

  function SlotIndex(ss: seq<Slot>, cid: int): (i: nat)
    ensures i <= |ss|
    ensures i < |ss| <==> cid in Cids(ss)
    ensures i < |ss| ==> ss[i].cid == cid
    ensures forall j :: 0 <= j < i ==> ss[j].cid != cid
  {
    if ss == [] || ss[0].cid == cid then 0 else 1 + SlotIndex(ss[1..], cid)
  }

  lemma SlotIndexIs(ss: seq<Slot>, cid: int, i: nat)
    requires i <= |ss| && (i < |ss| ==> ss[i].cid == cid)
    requires forall j :: 0 <= j < i ==> ss[j].cid != cid
    ensures SlotIndex(ss, cid) == i
  {
  }

  lemma NoneHeld(a: nat, held: set<int>)
    ensures AllHeld(a, a, held)
  {
  }

  lemma DistinctLater(ss: seq<Slot>, ticks: nat)
    requires Distinct(ss, ticks)
    ensures Distinct(ss, ticks + 1)
  {
  }

  lemma DistinctWithout(ss: seq<Slot>, ticks: nat, i: nat)
    requires Distinct(ss, ticks) && i < |ss|
    ensures Distinct(RequestTable.Removed(ss, i), ticks)
  {
    var r := RequestTable.Removed(ss, i);
    forall s | s in r ensures s in ss {
      var j :| 0 <= j < |r| && r[j] == s;
      assert s == ss[if j < i then j else j + 1];
    }
  }
}
