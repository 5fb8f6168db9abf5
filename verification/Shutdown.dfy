/** The shutdown coordinator: two flags and a count of responses in flight. */
module Shutdown {
  import opened Prelude

  datatype ShutdownMode = Drain | Abort

  /** The coordinator's fields as one value. */
  datatype Coordinator = Coordinator(shuttingDown: bool, mode: Option<ShutdownMode>, inFlight: nat)

  const FRESH := Coordinator(false, None, 0)

  predicate Consistent(c: Coordinator) {
    c.shuttingDown <==> c.mode.Some?
  }

  predicate ShouldAbort(c: Coordinator) {
    c.shuttingDown && c.mode == Some(Abort)
  }

  function Begin(c: Coordinator, m: ShutdownMode): Coordinator {
    if !c.shuttingDown then c.(shuttingDown := true, mode := Some(m))
    else if c.mode == Some(Drain) && m == Abort then c.(mode := Some(Abort))
    else c
  }

  function Enter(c: Coordinator): Coordinator {
    c.(inFlight := c.inFlight + 1)
  }

  function Exit(c: Coordinator): Coordinator {
    if c.inFlight > 0 then c.(inFlight := c.inFlight - 1) else c
  }

  /** How far a shutdown has gone; it only ever goes further. */
  function Stage(c: Coordinator): nat {
    if !c.shuttingDown then 0 else if c.mode == Some(Abort) then 2 else 1
  }

  class ShutdownCoordinator {
    var shuttingDown: bool
    var mode: Option<ShutdownMode>
    var inFlight: nat

    constructor ()
      ensures View() == FRESH
    {
      shuttingDown, mode, inFlight := false, None, 0;
    }

    function View(): Coordinator
      reads this
    {
      Coordinator(shuttingDown, mode, inFlight)
    }

    method BeginShutdown(m: ShutdownMode)
      modifies this
      ensures View() == Begin(old(View()), m)
      ensures Consistent(old(View())) ==> Consistent(View())
    {
      if shuttingDown {
        if mode == Some(Drain) && m == Abort {
          mode := Some(Abort);
        }
        return;
      }
      shuttingDown := true;
      mode := Some(m);
    }

    method EnterResponse()
      modifies this`inFlight
      ensures View() == Enter(old(View()))
    {
      inFlight := inFlight + 1;
    }

    method ExitResponse()
      modifies this`inFlight
      ensures View() == Exit(old(View()))
      ensures old(inFlight) > 0 ==> inFlight == old(inFlight) - 1
    {
      if inFlight > 0 {
        inFlight := inFlight - 1;
      }
    }
  }
}
