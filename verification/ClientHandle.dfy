/**
 The client's receive handler and close calls, as `af_ipc_client.c` has them, and the run of
 the state machine in `ClientClose` that they make.
 */
module ClientHandle {
  import opened ClientClose
  import RequestTable
  import Requests = RequestControl

  /** What one `recv` brings: bytes, with what each frame's callback does, or one of the ways to stop. */
  datatype Recv = Bytes(effects: seq<Effect>) | NoMore | Failed

  class Server {
    var fd: int
    var hasEvent: bool
    var inReceive: bool
    var marked: bool
    const requests: Requests.RequestControl
    /** The close callback's calls, by status, and the number of callbacks run by the receive handler. */
    var closed: seq<int>
    var dispatched: nat
    /** The abstract handle, and the steps that have led to it.  Nothing may touch the fields once it is freed. */
    ghost var h: Handle
    ghost var steps: seq<Step>

    constructor (fd: int, requests: Requests.RequestControl)
      requires fd >= 0 && requests.AtRest()
      ensures Usable() && this.requests == requests && h == OPENED && steps == [] && closed == [] && dispatched == 0
    {
      this.fd, hasEvent, inReceive, marked, closed, dispatched := fd, true, false, false, [], 0;
      this.requests, h, steps := requests, OPENED, [];
    }

    /** The fields are those of the abstract handle. */
    ghost predicate Tied()
      reads this, requests, requests.repr
    {
      && h.inReceive == inReceive && h.marked == marked && h.closeCalls == |closed|
      && (h.freed == 0 <==> fd != -1)
      && requests.AtRest()
    }

    /** ... and the handle has come about by steps of the state machine. */
    ghost predicate Valid()
      reads this, requests, requests.repr
    {
      Tied() && Ran(OPENED, steps, h)
    }

    ghost predicate Usable()
      reads this, requests, requests.repr
    {
      Valid() && Inv(h) && h.freed == 0
    }

    /** `close_and_free_server`: event, pending requests and descriptor go, then the handle; then the callback runs. */
    method CloseAndFree(status: int)
      requires Tied() && h.freed == 0
      modifies this, requests, requests.repr
      ensures Tied() && h == ClientClose.CloseAndFree(old(h)) && steps == old(steps)
      ensures !hasEvent && closed == old(closed) + [status] && dispatched == old(dispatched)
      ensures requests.table == RequestTable.ShutDown(old(requests.table)) && requests.repr == old(requests.repr)
    {
      hide Requests.RequestControl.AtRest;
      if hasEvent {
        hasEvent := false;
      }
      if fd != -1 {
        requests.ShutdownRequests();
        fd := -1;
      }
      h := ClientClose.CloseAndFree(h);
      closed := closed + [status];
    }

    /** `af_ipcc_close`: at once, or put off until the walk in progress ends. */
    method Close()
      requires Tied() && h.freed == 0
      modifies this, requests, requests.repr
      ensures Tied() && h == ClientClose.Close(old(h)) && steps == old(steps) && dispatched == old(dispatched)
      ensures closed == old(closed) + if old(inReceive) then [] else [STATUS_OK]
      ensures requests.table == After(old(requests.table), h) && requests.repr == old(requests.repr)
    {
      hide Requests.RequestControl.AtRest;
      if inReceive {
        marked := true;
        h := ClientClose.Close(h);
      } else {
        CloseAndFree(STATUS_OK);
      }
    }

    /** Application code that is given control, wherever that is. */
    method GiveControl(e: Effect)
      requires Tied() && (h.freed == 0 || e.Returns?)
      modifies this, requests, requests.repr
      ensures Tied() && h == Apply(old(h), e) && steps == old(steps) && dispatched == old(dispatched)
      ensures closed == old(closed) + match e
        case Returns => []
        case Closes => if old(inReceive) then [] else [STATUS_OK]
        case SendFails => [STATUS_ERROR]
      ensures requests.repr == old(requests.repr)
      ensures requests.table == if e.Returns? then old(requests.table) else After(old(requests.table), h)
    {
      match e
      case Returns =>
      case Closes => Close();
      case SendFails => CloseAndFree(STATUS_ERROR);
    }

    /** Application code that runs outside the receive handler. */
    method OutsideHandler(e: Effect)
      requires Valid() && !h.receiving && (h.freed == 0 || e.Returns?)
      modifies this, requests, requests.repr
      ensures Valid() && steps == old(steps) + [Outside(e)] && requests.repr == old(requests.repr)
    {
      hide Ran, Requests.RequestControl.AtRest;
      RanOneMore(OPENED, steps, h, Outside(e));
      GiveControl(e);
      steps := steps + [Outside(e)];
    }

    /** One frame's callback. */
    method RunCallback(e: Effect)
      requires Usable() && h.walking
      modifies this, requests, requests.repr
      ensures Valid() && steps == old(steps) + [Dispatch(e)] && requests.repr == old(requests.repr)
      ensures dispatched == old(dispatched) + 1
      ensures if e.SendFails?
        then h.receiving && h.freed == 1 && closed == old(closed) + [STATUS_ERROR]
             && requests.table == RequestTable.ShutDown(old(requests.table))
        else Usable() && h.walking && closed == old(closed) && requests.table == old(requests.table)
             && (marked <==> old(marked) || e.Closes?)
    {
      hide Ran, Requests.RequestControl.AtRest;
      RanOneMore(OPENED, steps, h, Dispatch(e));
      dispatched := dispatched + 1;
      GiveControl(e);
      steps := steps + [Dispatch(e)];
    }

    /**
     The walk over one buffer: every frame's callback runs, even after one of them has closed
     the handle.  The model ends with a send that fails, because the code goes on in freed memory.
     */
    method Walk(effects: seq<Effect>)
      requires Usable() && h.walking && !marked
      modifies this, requests, requests.repr
      ensures Valid() && steps == old(steps) + Dispatches(effects, Seen(effects)) && requests.repr == old(requests.repr)
      ensures dispatched == old(dispatched) + Seen(effects)
      ensures SendFails in effects ==>
        h.receiving && h.freed == 1 && closed == old(closed) + [STATUS_ERROR]
        && requests.table == RequestTable.ShutDown(old(requests.table))
      ensures SendFails !in effects ==>
        && Usable() && h.walking && closed == old(closed) && requests.table == old(requests.table)
        && (marked <==> Closes in effects)
    {
      hide Ran, Requests.RequestControl.AtRest;
      var i := 0;
      NoDispatches(effects);
      while i < |effects|
        invariant i <= |effects| && SendFails !in effects[..i]
        invariant Usable() && h.walking && closed == old(closed) && dispatched == old(dispatched) + i
        invariant requests.table == old(requests.table) && requests.repr == old(requests.repr)
        invariant steps == old(steps) + Dispatches(effects, i)
        invariant marked <==> Closes in effects[..i]
      {
        var e := effects[i];
        assert effects[..i + 1] == effects[..i] + [e];
        DispatchesOneMore(effects, i);
        RunCallback(e);
        i := i + 1;
        if e.SendFails? {
          SeenIs(effects, i);
          assert effects[i - 1] in effects;
          return;
        }
      }
      assert effects[..i] == effects;
      SeenIs(effects, i);
    }

    /** A buffer has come in. */
    method StartWalk()
      requires Usable() && h.receiving && !h.walking
      modifies `inReceive, `h, `steps
      ensures Usable() && h.receiving && h.walking && !marked && steps == old(steps) + [Data]
    {
      hide Ran, Requests.RequestControl.AtRest;
      RanOneMore(OPENED, steps, h, Data);
      inReceive := true;
      h, steps := Next(h, Data), steps + [Data];
    }

    /** The buffer is used up: a close that was put off is made now. */
    method FinishWalk()
      requires Usable() && h.walking
      modifies this, requests, requests.repr
      ensures Valid() && Inv(h) && !h.walking && steps == old(steps) + [EndWalk] && requests.repr == old(requests.repr)
      ensures dispatched == old(dispatched) && (h.freed > 0 <==> old(marked)) && (h.receiving <==> !old(marked))
      ensures closed == old(closed) + if old(marked) then [STATUS_OK] else []
      ensures requests.table == After(old(requests.table), h)
    {
      hide Ran, Requests.RequestControl.AtRest;
      RanOneMore(OPENED, steps, h, EndWalk);
      inReceive := false;
      h, steps := h.(inReceive := false, walking := false), steps + [EndWalk];
      if marked {
        CloseAndFree(STATUS_OK);
        h := h.(receiving := false);
      }
    }

    /** `recv` has failed, or the server has closed the connection. */
    method ReceiveFailed()
      requires Usable() && h.receiving && !h.walking
      modifies this, requests, requests.repr
      ensures Valid() && Inv(h) && h.freed == 1 && !h.receiving && steps == old(steps) + [RecvFails]
      ensures closed == old(closed) + [STATUS_ERROR] && dispatched == old(dispatched)
      ensures requests.table == RequestTable.ShutDown(old(requests.table)) && requests.repr == old(requests.repr)
    {
      hide Ran, Requests.RequestControl.AtRest;
      RanOneMore(OPENED, steps, h, RecvFails);
      CloseAndFree(STATUS_ERROR);
      h, steps := h.(receiving := false), steps + [RecvFails];
    }

    /** The handler is called, or returns because there is no more. */
    ghost method Turn(s: Step)
      requires Usable() && !h.walking && s == if h.receiving then WouldBlock else Wake
      modifies `h, `steps
      ensures Usable() && !h.walking && h.receiving == !old(h.receiving) && steps == old(steps) + [s]
    {
      hide Ran, Requests.RequestControl.AtRest;
      RanOneMore(OPENED, steps, h, s);
      h, steps := Next(h, s), steps + [s];
    }

    /** How the handler leaves things after a `recv` that was not the last, or was. */
    ghost predicate LeftBy(r: Recv, was: seq<int>)
      reads this, requests, requests.repr
    {
      && Valid() && (GoesOn(r) <==> h.receiving && h.freed == 0)
      && match r
         case NoMore => Usable() && closed == was
         case Failed => Inv(h) && h.freed == 1 && closed == was + [STATUS_ERROR]
         case Bytes(effects) =>
           if SendFails in effects then h.receiving && h.freed == 1 && closed == was + [STATUS_ERROR]
           else if Closes in effects then Inv(h) && h.freed == 1 && closed == was + [STATUS_OK]
           else Usable() && !h.walking && closed == was
    }

    /** One round of the receive handler. */
    method HandleOne(r: Recv)
      requires Usable() && h.receiving && !h.walking
      modifies this, requests, requests.repr
      ensures LeftBy(r, old(closed)) && steps == old(steps) + StepsFor(r) && requests.repr == old(requests.repr)
      ensures dispatched == old(dispatched) + if r.Bytes? then Seen(r.effects) else 0
      ensures requests.table == After(old(requests.table), h)
    {
      hide Ran, Requests.RequestControl.AtRest;
      match r
      case NoMore => Turn(WouldBlock);
      case Failed => ReceiveFailed();
      case Bytes(effects) =>
        ghost var before := steps;
        StartWalk();
        Walk(effects);
        if SendFails !in effects {
          FinishWalk();
        }
        assert steps == before + StepsFor(r);
    }

    /**
     The receive handler.  It stops at the first `recv` that brings no bytes, or right after
     the first buffer in which a callback closed the handle; only then is the handle freed and
     its close callback run, once.  If a send fails inside a callback, the handle is freed with
     the handler still at work on it, and there the model ends.  In every case the steps are
     those of the state machine.
     */
    method OnRecv(rs: seq<Recv>) returns (taken: nat)
      requires Usable() && !h.receiving
      requires rs != [] && !rs[|rs| - 1].Bytes?
      modifies this, requests, requests.repr
      ensures 0 < taken <= |rs|
      ensures forall i :: 0 <= i < taken - 1 ==> GoesOn(rs[i])
      ensures !GoesOn(rs[taken - 1]) && LeftBy(rs[taken - 1], old(closed))
      ensures steps == old(steps) + [Wake] + StepsOf(rs[..taken])
      ensures dispatched == old(dispatched) + Frames(rs[..taken])
      ensures requests.table == After(old(requests.table), h)
    {
      hide Ran, Requests.RequestControl.AtRest, Inv, StepsOf, StepsFor, Frames, Seen;
      taken := 0;
      StartReceiving();
      NothingReceived(rs);
      while true
        invariant taken < |rs|
        invariant Usable() && h.receiving && !h.walking && closed == old(closed)
        invariant requests.table == old(requests.table) && requests.repr == old(requests.repr)
        invariant forall i :: 0 <= i < taken ==> GoesOn(rs[i])
        invariant steps == old(steps) + [Wake] + StepsOf(rs[..taken])
        invariant dispatched == old(dispatched) + Frames(rs[..taken])
        decreases |rs| - taken
      {
        var r := rs[taken];
        OneMoreReceived(rs, taken);
        taken := taken + 1;
        HandleOne(r);
        if !GoesOn(r) {
          return;
        }
      }
    }

    ghost method StartReceiving()
      requires Usable() && !h.receiving
      modifies `h, `steps
      ensures Usable() && h.receiving && !h.walking && steps == old(steps) + [Wake]
    {
      hide Ran, Requests.RequestControl.AtRest;
      Turn(Wake);
    }
  }

  const STATUS_OK := 0
  const STATUS_ERROR := -1

  /** The pending requests go when the handle is freed. */
  function After(t: RequestTable.Table, h: Handle): (r: RequestTable.Table) {
    if h.freed > 0 then RequestTable.ShutDown(t) else t
  }

  /** The callbacks that run before the first send that fails, and with it. */
  function Seen(effects: seq<Effect>): (n: nat)
    ensures n <= |effects|
  {
    if effects == [] then 0 else if effects[0].SendFails? then 1 else 1 + Seen(effects[1..])
  }

  lemma {:induction false} SeenIs(effects: seq<Effect>, n: nat)
    requires n <= |effects|
    requires forall i :: 0 <= i < n - 1 ==> !effects[i].SendFails?
    requires n < |effects| ==> n > 0 && effects[n - 1].SendFails?
    ensures Seen(effects) == n
  {
    if n > 1 {
      SeenIs(effects[1..], n - 1);
    }
  }

  function Dispatches(effects: seq<Effect>, n: nat): (steps: seq<Step>)
    requires n <= |effects|
  {
    seq(n, i requires 0 <= i < n => Dispatch(effects[i]))
  }

  lemma NoDispatches(effects: seq<Effect>)
    ensures Dispatches(effects, 0) == []
  {
  }

  lemma DispatchesOneMore(effects: seq<Effect>, n: nat)
    requires n < |effects|
    ensures Dispatches(effects, n + 1) == Dispatches(effects, n) + [Dispatch(effects[n])]
  {
  }

  /** Bytes in whose walk no callback closes the handle or makes a send that fails. */
  predicate GoesOn(r: Recv) {
    r.Bytes? && Closes !in r.effects && SendFails !in r.effects
  }

  /** The steps of the state machine that one `recv` leads to. */
  function StepsFor(r: Recv): (steps: seq<Step>) {
    match r
    case NoMore => [WouldBlock]
    case Failed => [RecvFails]
    case Bytes(effects) =>
      [Data] + Dispatches(effects, Seen(effects)) + if SendFails in effects then [] else [EndWalk]
  }

  function StepsOf(rs: seq<Recv>): (steps: seq<Step>) {
    if rs == [] then [] else StepsOf(rs[..|rs| - 1]) + StepsFor(rs[|rs| - 1])
  }

  /** The callbacks that run for what was received. */
  function Frames(rs: seq<Recv>): (n: nat) {
    if rs == [] then 0
    else Frames(rs[..|rs| - 1]) + if rs[|rs| - 1].Bytes? then Seen(rs[|rs| - 1].effects) else 0
  }

  lemma NothingReceived(rs: seq<Recv>)
    ensures StepsOf(rs[..0]) == [] && Frames(rs[..0]) == 0
  {
  }

  lemma OneMoreReceived(rs: seq<Recv>, n: nat)
    requires n < |rs|
    ensures StepsOf(rs[..n + 1]) == StepsOf(rs[..n]) + StepsFor(rs[n])
    ensures Frames(rs[..n + 1]) == Frames(rs[..n]) + if rs[n].Bytes? then Seen(rs[n].effects) else 0
  {
    hide StepsFor, Seen;
    assert rs[..n + 1][..n] == rs[..n];
  }
}
