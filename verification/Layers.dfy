/**
 The classes and the transition system are two descriptions of the same code.  The request
 lists agree because both are stated by `RequestTable`; this module ties the server's list
 of clients, and the receive loop over bytes, to the steps of the transition system.
 */
module Layers {
  import opened Bytes
  import opened SeqNum
  import opened Framing
  import opened ClientIds
  import opened RequestTable
  import opened Endpoint
  import opened Protocol
  import ClientTable

  /** Where connection c is in the server's list, if it is open there: behind the open ones accepted after it. */
  function Place(conns: seq<Conn>, c: nat): (i: nat)
    requires c < |conns|
    decreases |conns|
  {
    var n := |conns| - 1;
    if c == n then 0 else Place(conns[..n], c) + if conns[n].server.open && conns[n].tick > 0 then 1 else 0
  }

  /** The search through the list ends at the client the transition system routes to. */
  lemma {:induction false} SearchIsRoute(conns: seq<Conn>, cid: int)
    ensures var c, i := Route(conns, cid), ClientTable.SlotIndex(Live(conns), cid);
      && (c < |conns| <==> i < |Live(conns)|)
      && (c < |conns| ==> i == Place(conns, c) && Live(conns)[i] == Slot(cid, conns[c].tick))
    decreases |conns|
  {
    hide CidOf;
    if conns != [] {
      var n := |conns| - 1;
      SearchIsRoute(conns[..n], cid);
      var rest := Live(conns[..n]);
      if conns[n].server.open && conns[n].tick > 0 {
        assert Live(conns)[1..] == rest;
      } else {
        assert Live(conns) == rest;
      }
    }
  }

  /** What one connection adds to the list. */
  function SlotsOf(x: Conn): (ss: seq<Slot>) {
    if x.server.open && x.tick > 0 then [Slot(CidOf(x.tick), x.tick)] else []
  }

  lemma LiveLast(conns: seq<Conn>, x: Conn)
    ensures Live(conns + [x]) == SlotsOf(x) + Live(conns)
    ensures Place(conns + [x], |conns|) == 0
    ensures forall c :: 0 <= c < |conns| ==> Place(conns + [x], c) == Place(conns, c) + |SlotsOf(x)|
  {
    hide CidOf;
    assert (conns + [x])[..|conns|] == conns;
  }

  /** What is to be shown of a change at connection c. */
  ghost predicate Changed(conns: seq<Conn>, c: nat, y: Conn)
    requires c < |conns|
  {
    var i, was, now := Place(conns, c), Live(conns), Live(conns[c := y]);
    if !conns[c].server.open then now == was
    else i < |was| && SlotsOf(conns[c]) == [was[i]] && now == if y.server.open then was else Removed(was, i)
  }

  lemma ChangeLast(rest: seq<Conn>, x: Conn, y: Conn)
    requires y.tick == x.tick > 0 && (y.server.open ==> x.server.open)
    ensures Changed(rest + [x], |rest|, y)
  {
    hide CidOf, Removed, Live, Place;
    LiveLast(rest, x);
    LiveLast(rest, y);
    assert (rest + [x])[|rest| := y] == rest + [y];
    RemovedFirst(Slot(CidOf(x.tick), x.tick), Live(rest));
  }

  lemma ChangeBehind(rest: seq<Conn>, x: Conn, c: nat, y: Conn)
    requires c < |rest| && Changed(rest, c, y)
    ensures Changed(rest + [x], c, y)
  {
    hide CidOf, Removed, Live, Place, SlotsOf;
    LiveLast(rest, x);
    LiveLast(rest[c := y], x);
    assert (rest + [x])[c := y] == rest[c := y] + [x];
    if rest[c].server.open {
      RemovedBehind(SlotsOf(x), Live(rest), Place(rest, c));
    }
  }

  /** What becomes of the list when one connection changes. */
  lemma {:induction false} ChangeOne(conns: seq<Conn>, c: nat, y: Conn)
    requires c < |conns| && y.tick == conns[c].tick > 0
    requires y.server.open ==> conns[c].server.open
    ensures Changed(conns, c, y)
    decreases |conns|
  {
    hide Changed;
    var n := |conns| - 1;
    assert conns == conns[..n] + [conns[n]];
    if c < n {
      ChangeOne(conns[..n], c, y);
      ChangeBehind(conns[..n], conns[n], c, y);
    } else {
      ChangeLast(conns[..n], conns[n], y);
    }
  }

  lemma RemovedBehind(a: seq<Slot>, b: seq<Slot>, i: nat)
    requires i < |b|
    ensures Removed(a + b, |a| + i) == a + Removed(b, i)
  {
  }

  lemma RemovedFirst(x: Slot, b: seq<Slot>)
    ensures Removed([x] + b, 0) == b
  {
  }

  /**
   The server's list over a step: a client that is accepted is put at its head, one that is
   closed is taken out, and nothing else touches it.
   */
  lemma ListOverStep(s: State, step: Step)
    requires CanStep(s, step) && forall c :: 0 <= c < |s.conns| ==> s.conns[c].tick > 0
    ensures step.At? && step.side.AtServer? && step.a.Close? ==>
      Place(s.conns, step.c) < |Live(s.conns)|
    ensures Live(Next(s, step).conns) == match step
      case Accept(tick) => [Slot(CidOf(tick), tick)] + Live(s.conns)
      case AcceptInVain(_) => Live(s.conns)
      case At(c, side, a) =>
        if side.AtServer? && a.Close? then Removed(Live(s.conns), Place(s.conns, c)) else Live(s.conns)
  {
    hide CidOf, Destination, Outgoing;
    match step
    case Accept(tick) =>
      assert (s.conns + [Conn(tick, FRESH, FRESH)])[..|s.conns|] == s.conns;
    case AcceptInVain(_) =>
    case At(c, side, a) =>
      var x := s.conns[c];
      var y := WithEnd(x, side, Act(EndOf(x, side), a, PeerId(x, side)));
      OpenOverAct(EndOf(x, side), a, PeerId(x, side));
      ChangeOne(s.conns, c, y);
      var moved, d := s.conns[c := y], Destination(s, c, side, a);
      if d < |moved| {
        ChangeOne(moved, d, Deliver(moved[d], Other(side), Outgoing(EndOf(x, side), a, c)));
      }
  }

  lemma OpenOverAct(e: End, a: Action, clientId: u16)
    requires Enabled(e, a)
    ensures Act(e, a, clientId).open == (e.open && !a.Close?)
    ensures a.Close? ==> e.open
  {
  }

  /** What an end has to show for what it was sent, without what the code does not know. */
  datatype View = View(table: Table, received: seq<Frame>, due: seq<Owed>)

  datatype Owed = ReplyFor(issue: nat, payload: seq<byte>) | TimeoutOf(issue: nat)

  function FrameOf(m: Message): (f: Frame) {
    Frame(m.seqNum, m.payload)
  }

  function OwedFor(cb: Callback): (o: Owed) {
    match cb
    case Replied(issue, msg) => ReplyFor(issue, msg.payload)
    case TimedOut(issue) => TimeoutOf(issue)
  }

  function Frames(ms: seq<Message>): (fs: seq<Frame>)
    ensures |fs| == |ms|
  {
    seq(|ms|, i requires 0 <= i < |ms| => FrameOf(ms[i]))
  }

  function ViewOf(e: End): (v: View) {
    View(e.table, Frames(e.received), seq(|e.due|, i requires 0 <= i < |e.due| => OwedFor(e.due[i])))
  }

  /** One dispatch of the receive loop: to the receive callback, or to the table and the callback it finds there. */
  function Hear(v: View, d: Dispatch, b: seq<byte>): (r: View)
    requires d.off + d.size <= |b|
  {
    var payload := b[d.off..d.off + d.size];
    match d
    case ToReceiver(seqNum, _, _) => v.(received := v.received + [Frame(seqNum, payload)])
    case ToPending(id, _, _) =>
      if HasMatch(v.table, id)
      then v.(table := Answer(v.table, id), due := v.due + [ReplyFor(Matched(v.table, id).issue, payload)])
      else v
  }

  function HearAll(v: View, ds: seq<Dispatch>, b: seq<byte>): (r: View)
    requires forall d <- ds :: d.off + d.size <= |b|
    decreases |ds|
  {
    if ds == [] then v else HearAll(Hear(v, ds[0], b), ds[1..], b)
  }

  /** Steps of the transition system that take the first n messages off the inbox. */
  function ReceiveAll(e: End, n: nat, clientId: u16): (r: End)
    requires e.open && n <= |e.inbox|
    decreases n
  {
    if n == 0 then e
    else
      OpenOverAct(e, Receive, clientId);
      InboxOverReceive(e, clientId);
      ReceiveAll(Act(e, Receive, clientId), n - 1, clientId)
  }

  lemma InboxOverReceive(e: End, clientId: u16)
    requires Enabled(e, Receive)
    ensures Act(e, Receive, clientId).inbox == e.inbox[1..]
  {
  }

  /** The dispatch of a frame is the step that receives its message. */
  lemma HearOne(e: End, d: Dispatch, b: seq<byte>, clientId: u16)
    requires Enabled(e, Receive) && d.off + d.size <= |b|
    requires d == DispatchOf(FrameOf(e.inbox[0]), clientId, d.off)
    requires b[d.off..d.off + d.size] == e.inbox[0].payload
    ensures Hear(ViewOf(e), d, b) == ViewOf(Act(e, Receive, clientId))
  {
    hide Classify, AppWord, Answer, HasMatch, Matched;
  }

  lemma {:induction false} HearInOrder(e: End, ds: seq<Dispatch>, b: seq<byte>, clientId: u16)
    requires e.open && |ds| <= |e.inbox|
    requires DispatchesOf(ds, Frames(e.inbox[..|ds|]), b, clientId)
    ensures forall d <- ds :: d.off + d.size <= |b|
    ensures HearAll(ViewOf(e), ds, b) == ViewOf(ReceiveAll(e, |ds|, clientId))
    decreases |ds|
  {
    hide DispatchOf, Act, Hear, ViewOf;
    if ds != [] {
      var r := Act(e, Receive, clientId);
      OpenOverAct(e, Receive, clientId);
      InboxOverReceive(e, clientId);
      assert FrameOf(e.inbox[0]) == Frames(e.inbox[..|ds|])[0];
      HearOne(e, ds[0], b, clientId);
      assert Frames(r.inbox[..|ds| - 1]) == Frames(e.inbox[..|ds|])[1..];
      HearInOrder(r, ds[1..], b, clientId);
    }
  }

  /**
   What the receive loop makes of a buffer with the first bytes of the inbox's stream is what
   the transition system makes of the n messages that lie wholly in it.
   */
  method ReceiveBuffer(buf: array<byte>, len: nat, clientId: u16, ghost e: End, ghost n: nat)
    returns (ds: seq<Dispatch>)
    requires e.open && n <= |e.inbox| && len <= buf.Length
    requires forall f <- Frames(e.inbox) :: Sendable(f) && f.payload != []
    requires |Stream(Frames(e.inbox)[..n])| <= len <= |Stream(Frames(e.inbox))|
    requires n < |e.inbox| ==> len < |Stream(Frames(e.inbox)[..n + 1])|
    requires buf[..len] == Stream(Frames(e.inbox))[..len]
    ensures |ds| == n && forall d <- ds :: d.off + d.size <= len
    ensures HearAll(ViewOf(e), ds, buf[..len]) == ViewOf(ReceiveAll(e, n, clientId))
  {
    hide Cut, Encode, CanCut, DispatchOf, Stream, HearAll, ViewOf, ReceiveAll, Act;
    CutOfStream(Frames(e.inbox), len, n);
    var pos;
    ds, pos := ReceiveLoop(buf, len, clientId);
    assert Frames(e.inbox)[..n] == Frames(e.inbox[..n]);
    HearInOrder(e, ds, buf[..len], clientId);
  }
}
