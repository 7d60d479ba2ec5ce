/**
 Closing a client.  A close asked for while the receive handler walks its buffer is put off
 until the walk ends; the handle must not be freed under the handler.
 */
module ClientClose {

  /** What application code does when it is given control. */
  datatype Effect = Returns | Closes | SendFails

  /**
   The handle: its two flags, and what the code does not record - how often it was freed and
   its close callback run, and whether the handler is in its loop and in a buffer.
   */
  datatype Handle = Handle(inReceive: bool, marked: bool, freed: nat, closeCalls: nat, receiving: bool, walking: bool)

  const OPENED := Handle(false, false, 0, 0, false, false)

  datatype Step =
    | Wake                        // the event loop calls the receive handler
    | Data                        // `recv` returns bytes, and the walk over them starts
    | Dispatch(effect: Effect)    // one frame's callback
    | EndWalk                     // the bytes are used up
    | WouldBlock                  // `recv` has no more
    | RecvFails                   // `recv` fails, or the server has closed
    | Outside(effect: Effect)     // application code that runs outside the handler

  /** When the code can take a step.  The event is gone once the handle is freed. */
  predicate Enabled(h: Handle, s: Step) {
    match s
    case Wake => !h.receiving && h.freed == 0
    case Data => h.receiving && !h.walking
    case Dispatch(_) => h.receiving && h.walking
    case EndWalk => h.receiving && h.walking
    case WouldBlock => h.receiving && !h.walking
    case RecvFails => h.receiving && !h.walking
    case Outside(_) => !h.receiving
  }

  /** `close_and_free_server`: the close callback runs after the handle is freed. */
  function CloseAndFree(h: Handle): (r: Handle) {
    h.(freed := h.freed + 1, closeCalls := h.closeCalls + 1)
  }

  /** `af_ipcc_close`. */
  function Close(h: Handle): (r: Handle) {
    if h.inReceive then h.(marked := true) else CloseAndFree(h)
  }

  function Apply(h: Handle, e: Effect): (r: Handle) {
    match e
    case Returns => h
    case Closes => Close(h)
    case SendFails => CloseAndFree(h)
  }

  function Next(h: Handle, s: Step): (r: Handle)
    requires Enabled(h, s)
  {
    match s
    case Wake => h.(receiving := true)
    case Data => h.(inReceive := true, walking := true)
    case Dispatch(e) => Apply(h, e)
    case EndWalk =>
      var r := h.(inReceive := false, walking := false);
      if r.marked then CloseAndFree(r).(receiving := false) else r
    case WouldBlock => h.(receiving := false)
    case RecvFails => CloseAndFree(h).(receiving := false)
    case Outside(e) => Apply(h, e)
  }

  /** The handle is not used once its close callback has run. */
  predicate Unused(h: Handle, s: Step) {
    match s
    case Dispatch(e) => h.freed > 0 ==> e.Returns?
    case Outside(e) => h.freed > 0 ==> e.Returns?
    case _ => true
  }

  ghost predicate Possible(h: Handle, steps: seq<Step>)
    decreases |steps|
  {
    steps == [] ||
    (Enabled(h, steps[0]) && Unused(h, steps[0]) && Possible(Next(h, steps[0]), steps[1..]))
  }

  ghost function Run(h: Handle, steps: seq<Step>): (r: Handle)
    requires Possible(h, steps)
    decreases |steps|
  {
    if steps == [] then h else Run(Next(h, steps[0]), steps[1..])
  }

  ghost predicate Ran(h: Handle, steps: seq<Step>, r: Handle) {
    Possible(h, steps) && Run(h, steps) == r
  }

  lemma {:induction false} RanOneMore(h: Handle, steps: seq<Step>, r: Handle, s: Step)
    requires Ran(h, steps, r) && Enabled(r, s) && Unused(r, s)
    ensures Ran(h, steps + [s], Next(r, s))
    decreases |steps|
  {
    hide Next, Enabled, Unused;
    if steps == [] {
      assert steps + [s] == [s] && [s][1..] == [];
      assert Ran(Next(r, s), [], Next(r, s));
    } else {
      assert (steps + [s])[1..] == steps[1..] + [s];
      RanOneMore(Next(h, steps[0]), steps[1..], r, s);
    }
  }

  /** No callback makes a send that fails. */
  predicate SendsInsideSucceed(steps: seq<Step>) {
    Dispatch(SendFails) !in steps
  }

  ghost predicate Inv(h: Handle) {
    && (h.marked && h.freed == 0 ==> h.inReceive)
    && (h.inReceive <==> h.walking)
    && (h.walking ==> h.receiving)
    && (h.receiving ==> h.freed == 0)
    && h.freed <= 1 && h.closeCalls == h.freed
  }

  /** The handle is never freed while the handler is at work on it. */
  predicate Safe(h: Handle) {
    h.receiving ==> h.freed == 0
  }

  /** Safe in every state of the run. */
  ghost predicate AlwaysSafe(h: Handle, steps: seq<Step>)
    requires Possible(h, steps)
    decreases |steps|
  {
    Safe(h) && (steps != [] ==> AlwaysSafe(Next(h, steps[0]), steps[1..]))
  }

  lemma StepKeepsInv(h: Handle, s: Step)
    requires Inv(h) && Enabled(h, s) && Unused(h, s) && s != Dispatch(SendFails)
    ensures Inv(Next(h, s))
  {
  }

  /**
   Deferred close, over all runs in which sends inside callbacks succeed: "marked" implies
   "in receive", the handle is freed and its close callback run at most once and together,
   and a close that was asked for has happened by the time the handler returns.
   */
  lemma {:induction false} RunsAreSafe(h: Handle, steps: seq<Step>)
    requires Inv(h) && Possible(h, steps) && SendsInsideSucceed(steps)
    ensures Inv(Run(h, steps)) && AlwaysSafe(h, steps)
    decreases |steps|
  {
    if steps != [] {
      StepKeepsInv(h, steps[0]);
      RunsAreSafe(Next(h, steps[0]), steps[1..]);
    }
  }

  /** A marked handle is never taken back to `recv`: its walk ends by freeing it. */
  lemma NoReceiveOnMarked(h: Handle)
    requires Inv(h) && h.marked && h.freed == 0
    ensures !Enabled(h, Data) && !Enabled(h, Wake) && !Enabled(h, WouldBlock)
    ensures Enabled(h, EndWalk)
    ensures var r := Next(h, EndWalk); r.freed == 1 && r.closeCalls == 1 && !r.receiving
  {
  }

  /** The handle is safe from the handler's point of view exactly when no send fails inside a callback. */
  lemma {:induction false} SafeIff(h: Handle, steps: seq<Step>)
    requires Inv(h) && Possible(h, steps)
    ensures AlwaysSafe(h, steps) <==> SendsInsideSucceed(steps)
    decreases |steps|
  {
    if steps != [] {
      if steps[0] == Dispatch(SendFails) {
        var r := Next(h, steps[0]);
        assert r.receiving && r.freed == 1;
      } else {
        StepKeepsInv(h, steps[0]);
        SafeIff(Next(h, steps[0]), steps[1..]);
        assert SendsInsideSucceed(steps) <==> SendsInsideSucceed(steps[1..]) by {
          assert steps == [steps[0]] + steps[1..];
        }
      }
    }
  }

  /** A run that shows it: one buffer, one callback, one send that fails. */
  lemma SendFailureInsideFreesUnderHandler()
    ensures var steps := [Wake, Data, Dispatch(SendFails)];
      Possible(OPENED, steps) && var h := Run(OPENED, steps); h.walking && h.freed == 1
  {
    var steps := [Wake, Data, Dispatch(SendFails)];
    var h1 := Next(OPENED, Wake);
    var h2 := Next(h1, Data);
    var h3 := Next(h2, Dispatch(SendFails));
    assert steps[1..] == [Data, Dispatch(SendFails)];
    assert steps[1..][1..] == [Dispatch(SendFails)];
    assert steps[1..][1..][1..] == [];
    assert Possible(h3, []) && Run(h3, []) == h3;
    assert Possible(h2, [Dispatch(SendFails)]) && Run(h2, [Dispatch(SendFails)]) == h3;
    assert Possible(h1, [Data, Dispatch(SendFails)]);
  }
}
