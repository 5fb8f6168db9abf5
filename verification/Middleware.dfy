/**
  Many interleaved requests passing through the middleware while the process may
  be told to shut down at any moment. A step is one look at, or one update of,
  shared state; between two steps of a request anything else may happen.
 */
module Middleware {
  import opened Prelude
  import opened Shutdown
  import opened Policy

  /** Which matched actions the evaluation of a request can select; that depends on the rules of its handler. */
  type Selectable = Candidate -> bool

  /** The error answers: 403, two kinds of 503, and what a rejecting action says. */
  datatype Answer =
    | Blocked
    | BackendUnavailable
    | ShuttingDown
    | Limited(status: int, detail: string, retryAfter: int)

  /**
    Where one request stands. `limit` is the route's rate, `rules` what the evaluation
    of the handler's rules can select, if it has any, and `rate` the rate finally
    chosen.
   */
  datatype Phase =
    | Arrived(limit: Option<pos>, rules: Option<Selectable>)  // before the shutdown check
    | Deciding(limit: Option<pos>, can: Selectable)         // past the check, rules being evaluated
    | Delaying(seconds: real, rate: Option<pos>)            // counted, in its policy delay
    | Slept(rate: Option<pos>)                              // counted, delay over, before the second check
    | Refusing                                              // counted, answering 503 after the delay
    | Cleared(rate: Option<pos>)                            // counted, second check passed, leaving the delay
    | Ready(rate: Option<pos>)                              // past every check, response not begun
    | Sending(limitedTo: pos)                               // counted, response being sent at a limited rate
    | Forwarding                                            // response passed through unlimited
    | Bypassing                                             // neither limit nor rules, not managed
    | Answering(answer: Answer)                             // sending an error answer
    | Done

  /** What came of evaluating the rules; Failed stands for an unresolved scope or an unavailable store. */
  datatype Told = Failed | Selected(matched: Option<Candidate>)

  /** What the middleware does about it. */
  datatype Verdict =
    | Pass
    | Unavailable
    | Refuse(answer: Answer)
    | Pause(seconds: real, throttle: Option<pos>)
    | Slow(throttle: Option<pos>)

  function VerdictOf(told: Told): Verdict {
    match told
    case Failed => Unavailable
    case Selected(None) => Pass
    case Selected(Some(c)) =>
      var d := Decide(c.rule.action, c.retryAfter);
      if d.reject then Refuse(Limited(d.status, d.detail, d.retryAfter))
      else if d.preDelay > 0.0 then Pause(d.preDelay, d.throttleRate)
      else Slow(d.throttleRate)
  }

  datatype Waiter = Idle | Waiting(deadline: Option<real>) | Returned(drained: bool)

  datatype State = State(coord: Coordinator, requests: seq<Phase>, waiter: Waiter)

  datatype Step =
    | Arrive(limit: Option<pos>, rules: Option<Selectable>)
    | TurnAway(i: nat, blocked: bool)  // blocked address or unreachable backend
    | Check(i: nat)                  // the shutdown check before the rules
    | Judge(i: nat, told: Told)
    | LookWhilePausing(i: nat)       // the abort check of the delay's polling loop
    | WakeUp(i: nat)                 // the delay is over: a last abort check
    | SecondCheck(i: nat)            // the shutdown check after the delay
    | LeaveDelay(i: nat)
    | BeginResponse(i: nat)
    | SeeAbort(i: nat)               // the streamer notices the abort
    | Finish(i: nat)
    | Fault(i: nat)                  // an exception or a cancellation
    | BeginShutdown(mode: ShutdownMode)
    | StartWaiting(deadline: Option<real>)
    | PollWaiting(now: real)

  function RateFor(limit: Option<pos>, throttle: Option<pos>): Option<pos> {
    if throttle.Some? then throttle else limit
  }

  predicate Managed(p: Phase) {
    p.Arrived? && (p.limit.Some? || p.rules.Some?)
  }

  predicate Counted(p: Phase) {
    p.Delaying? || p.Slept? || p.Refusing? || p.Cleared? || p.Sending?
  }

  /** Any evaluation may match nothing or fail; the rest depends on the rules. */
  predicate CanBeTold(can: Selectable, told: Told) {
    told.Selected? && told.matched.Some? ==> can(told.matched.value)
  }

  /** The request a step belongs to. */
  function Actor(e: Step): Option<nat> {
    match e
    case TurnAway(i, _) => Some(i)
    case Check(i) => Some(i)
    case Judge(i, _) => Some(i)
    case LookWhilePausing(i) => Some(i)
    case WakeUp(i) => Some(i)
    case SecondCheck(i) => Some(i)
    case LeaveDelay(i) => Some(i)
    case BeginResponse(i) => Some(i)
    case SeeAbort(i) => Some(i)
    case Finish(i) => Some(i)
    case Fault(i) => Some(i)
    case _ => None
  }

  predicate Enabled(s: State, e: Step) {
    && (Actor(e).Some? ==> Actor(e).value < |s.requests|)
    && match e
       case TurnAway(i, _) => s.requests[i].Arrived?
       case Check(i) => s.requests[i].Arrived?
       case Judge(i, told) => s.requests[i].Deciding? && CanBeTold(s.requests[i].can, told)
       case LookWhilePausing(i) => s.requests[i].Delaying?
       case WakeUp(i) => s.requests[i].Delaying?
       case SecondCheck(i) => s.requests[i].Slept?
       case LeaveDelay(i) => s.requests[i].Refusing? || s.requests[i].Cleared?
       case BeginResponse(i) => s.requests[i].Ready?
       case SeeAbort(i) => s.requests[i].Sending? && ShouldAbort(s.coord)
       case Finish(i) =>
         s.requests[i].Sending? || s.requests[i].Forwarding? || s.requests[i].Bypassing? || s.requests[i].Answering?
       case Fault(i) =>
         !s.requests[i].Done? && !s.requests[i].Ready? && !s.requests[i].Slept? && !s.requests[i].Cleared?
       case StartWaiting(_) => s.waiter.Idle?
       case PollWaiting(_) => s.waiter.Waiting?
       case _ => true
  }

  /** What a step of request `i` makes of its phase. */
  function NextPhase(c: Coordinator, p: Phase, e: Step): Phase {
    match e
    case TurnAway(_, blocked) => Answering(if blocked then Blocked else BackendUnavailable)
    case Check(_) =>
      if !p.Arrived? then p
      else if c.shuttingDown && Managed(p) then Answering(ShuttingDown)
      else if p.rules.Some? then Deciding(p.limit, p.rules.value)
      else if p.limit.Some? then Ready(p.limit)
      else Bypassing
    case Judge(_, told) =>
      if !p.Deciding? then p
      else (match VerdictOf(told)
        case Pass => Ready(p.limit)
        case Unavailable => Answering(BackendUnavailable)
        case Refuse(answer) => Answering(answer)
        case Pause(seconds, throttle) => Delaying(seconds, RateFor(p.limit, throttle))
        case Slow(throttle) => Ready(RateFor(p.limit, throttle)))
    case LookWhilePausing(_) => if ShouldAbort(c) then Done else p
    case WakeUp(_) => if ShouldAbort(c) then Done else if p.Delaying? then Slept(p.rate) else p
    case SecondCheck(_) => if c.shuttingDown then Refusing else if p.Slept? then Cleared(p.rate) else p
    case LeaveDelay(_) => if p.Cleared? then Ready(p.rate) else Done
    case BeginResponse(_) => if p.Ready? && p.rate.Some? then Sending(p.rate.value) else Forwarding
    case SeeAbort(_) => Done
    case Finish(_) => Done
    case Fault(_) => Done
    case _ => p
  }

  /** The two places that call `enter_response`. */
  predicate CallsEnter(p: Phase, e: Step) {
    match e
    case Judge(_, told) => VerdictOf(told).Pause?
    case BeginResponse(_) => p.Ready? && p.rate.Some?
    case _ => false
  }

  /** The ways out of the two `try` blocks whose `finally` calls `exit_response`. */
  predicate CallsExit(c: Coordinator, p: Phase, e: Step) {
    match e
    case LookWhilePausing(_) => ShouldAbort(c)
    case WakeUp(_) => ShouldAbort(c)
    case LeaveDelay(_) => true
    case SeeAbort(_) => true
    case Finish(_) => p.Sending?
    case Fault(_) => p.Delaying? || p.Refusing? || p.Sending?
    case _ => false
  }

  function Effect(c: Coordinator, p: Phase, e: Step): Coordinator {
    if CallsEnter(p, e) then Enter(c) else if CallsExit(c, p, e) then Exit(c) else c
  }

  function Next(s: State, e: Step): State
    requires Enabled(s, e)
  {
    match e
    case Arrive(limit, rules) => s.(requests := s.requests + [Arrived(limit, rules)])
    case BeginShutdown(mode) => s.(coord := Begin(s.coord, mode))
    case StartWaiting(deadline) => s.(waiter := Waiting(deadline))
    case PollWaiting(now) =>
      if s.coord.inFlight == 0 then s.(waiter := Returned(true))
      else if s.waiter.deadline.Some? && now >= s.waiter.deadline.value then s.(waiter := Returned(false))
      else s
    case _ =>
      var i := Actor(e).value;
      var p := NextPhase(s.coord, s.requests[i], e);
      s.(requests := s.requests[i := p], coord := Effect(s.coord, s.requests[i], e))
  }

  // ----------------------------------------------------------------------- runs

  const START := State(FRESH, [], Idle)

  /** The steps can be taken one after the other. */
  predicate Runs(s: State, steps: seq<Step>)
    decreases |steps|
  {
    steps == [] || (Enabled(s, steps[0]) && Runs(Next(s, steps[0]), steps[1..]))
  }

  function After(s: State, steps: seq<Step>): State
    requires Runs(s, steps)
    decreases |steps|
  {
    if steps == [] then s else After(Next(s, steps[0]), steps[1..])
  }

  // ---------------------------------------------------------------------- totals

  function Total(f: Phase -> nat, ps: seq<Phase>): nat {
    if ps == [] then 0 else Total(f, ps[..|ps| - 1]) + f(ps[|ps| - 1])
  }

  lemma {:induction false} TotalUpdate(f: Phase -> nat, ps: seq<Phase>, i: nat, p: Phase)
    requires i < |ps|
    ensures Total(f, ps[i := p]) + f(ps[i]) == Total(f, ps) + f(p)
  {
    var n := |ps| - 1;
    var qs := ps[i := p];
    if i == n {
      assert qs[..n] == ps[..n];
    } else {
      assert qs[..n] == ps[..n][i := p];
      TotalUpdate(f, ps[..n], i, p);
    }
  }

  lemma TotalAppend(f: Phase -> nat, ps: seq<Phase>, p: Phase)
    ensures Total(f, ps + [p]) == Total(f, ps) + f(p)
  {
    assert (ps + [p])[..|ps|] == ps;
  }

  lemma {:induction false} TotalMember(f: Phase -> nat, ps: seq<Phase>)
    ensures Total(f, ps) > 0 <==> exists i :: 0 <= i < |ps| && f(ps[i]) > 0
  {
    if ps != [] {
      TotalMember(f, ps[..|ps| - 1]);
      if Total(f, ps) > 0 && f(ps[|ps| - 1]) == 0 {
        var i :| 0 <= i < |ps| - 1 && f(ps[..|ps| - 1][i]) > 0;
        assert f(ps[i]) > 0;
      }
      if i :| 0 <= i < |ps| && f(ps[i]) > 0 {
        if i < |ps| - 1 {
          assert f(ps[..|ps| - 1][i]) > 0;
        }
      }
    }
  }

  function One(b: bool): nat {
    if b then 1 else 0
  }

  function CountedOne(p: Phase): nat {
    One(Counted(p))
  }

  /** Requests delaying or sending at a limited rate. */
  function InResponse(s: State): nat {
    Total(CountedOne, s.requests)
  }

  // ---------------------------------------------------------- in-flight accounting

  ghost predicate Accounted(s: State) {
    s.coord.inFlight == InResponse(s) && Consistent(s.coord)
  }

  /** The calls of a request's step change the count as the step changes what is counted. */
  lemma CallsMatchPhases(s: State, e: Step)
    requires Enabled(s, e) && Actor(e).Some?
    ensures
      var p := s.requests[Actor(e).value];
      var p' := NextPhase(s.coord, p, e);
      && (CallsEnter(p, e) ==> !Counted(p) && Counted(p'))
      && (!CallsEnter(p, e) && CallsExit(s.coord, p, e) ==> Counted(p) && !Counted(p'))
      && (!CallsEnter(p, e) && !CallsExit(s.coord, p, e) ==> Counted(p) == Counted(p'))
  {
  }

  lemma StepAccounts(s: State, e: Step)
    requires Accounted(s) && Enabled(s, e)
    ensures Accounted(Next(s, e))
    ensures Actor(e).Some? && CallsExit(s.coord, s.requests[Actor(e).value], e) ==> s.coord.inFlight > 0
  {
    if Actor(e).Some? {
      var i := Actor(e).value;
      CallsMatchPhases(s, e);
      TotalUpdate(CountedOne, s.requests, i, NextPhase(s.coord, s.requests[i], e));
      TotalMember(CountedOne, s.requests);
      assert Counted(s.requests[i]) ==> CountedOne(s.requests[i]) > 0;
    }
    if e.Arrive? {
      TotalAppend(CountedOne, s.requests, Arrived(e.limit, e.rules));
    }
  }

  /**
    In every reachable state the coordinator's count is exactly the number of
    requests inside a delay or a limited response, whichever way each of them ends.
   */
  lemma {:induction false} InFlightIsExact(s: State, steps: seq<Step>)
    requires Accounted(s) && Runs(s, steps)
    ensures Accounted(After(s, steps))
    decreases |steps|
  {
    if steps != [] {
      StepAccounts(s, steps[0]);
      InFlightIsExact(Next(s, steps[0]), steps[1..]);
    }
  }

  lemma StartIsAccounted()
    ensures Accounted(START)
  {
  }

  /** The clamp at zero in `exit_response` is never used: whoever calls it is still counted. */
  lemma ClampIsNeverUsed(steps: seq<Step>, e: Step)
    requires Runs(START, steps) && Enabled(After(START, steps), e) && Actor(e).Some?
    ensures
      var s := After(START, steps);
      var i := Actor(e).value;
      CallsExit(s.coord, s.requests[i], e) ==>
        s.coord.inFlight > 0 && Next(s, e).coord.inFlight == s.coord.inFlight - 1
  {
    StartIsAccounted();
    InFlightIsExact(START, steps);
    StepAccounts(After(START, steps), e);
  }

  /**
    `wait_until_drained` answers True exactly in a state without a counted request,
    and False exactly in any other once its deadline has come; else it goes on waiting.
   */
  lemma DrainedMeansEmpty(steps: seq<Step>, now: real)
    requires Runs(START, steps) && After(START, steps).waiter.Waiting?
    ensures
      var s := After(START, steps);
      Next(s, PollWaiting(now)).waiter == Returned(true)
      <==> forall i :: 0 <= i < |s.requests| ==> !Counted(s.requests[i])
    ensures
      var s := After(START, steps);
      var after := Next(s, PollWaiting(now)).waiter;
      && (after == Returned(false)
          <==> (exists i :: 0 <= i < |s.requests| && Counted(s.requests[i]))
               && s.waiter.deadline.Some? && now >= s.waiter.deadline.value)
      && (!after.Returned? ==> after == s.waiter)
  {
    var s := After(START, steps);
    StartIsAccounted();
    InFlightIsExact(START, steps);
    TotalMember(CountedOne, s.requests);
    if i :| 0 <= i < |s.requests| && Counted(s.requests[i]) {
      assert CountedOne(s.requests[i]) > 0;
    }
  }

  /** The shutdown mode only moves forward: none, then drain, then abort, where drain may be skipped. */
  lemma {:induction false} ModeOnlyAdvances(s: State, steps: seq<Step>)
    requires Runs(s, steps) && Consistent(s.coord)
    ensures Stage(s.coord) <= Stage(After(s, steps).coord)
    ensures s.coord.shuttingDown ==> After(s, steps).coord.shuttingDown
    ensures ShouldAbort(s.coord) ==> ShouldAbort(After(s, steps).coord)
    decreases |steps|
  {
    if steps != [] {
      ModeOnlyAdvances(Next(s, steps[0]), steps[1..]);
    }
  }

  // -------------------------------------------------------------- drain progress

  /** Past the check of a managed request and not yet finished; larger means further from the end. */
  function Rank(p: Phase): nat {
    match p
    case Deciding(_, _) => 5
    case Delaying(_, _) => 4
    case Slept(_) => 3
    case Cleared(_) => 3
    case Ready(_) => 2
    case Refusing => 1
    case Sending(_) => 1
    case Forwarding => 1
    case _ => 0
  }

  /** Verdicts that put the request into a delay or give it a rate. */
  predicate Slows(v: Verdict) {
    v.Pause? || (v.Slow? && v.throttle.Some?)
  }

  /** May still enter a response once a shutdown has begun. */
  ghost predicate MayEnter(p: Phase) {
    || (p.Deciding? && (p.limit.Some? || exists c :: p.can(c) && Slows(VerdictOf(Selected(Some(c))))))
    || (p.Cleared? && p.rate.Some?)
    || (p.Ready? && p.rate.Some?)
  }

  ghost function Pending(p: Phase): nat {
    One(MayEnter(p))
  }

  function Work(s: State): nat {
    Total(Rank, s.requests)
  }

  ghost function Potential(s: State): nat {
    Total(Pending, s.requests)
  }

  /** Whether the step calls `enter_response`. */
  predicate Enters(s: State, e: Step)
    requires Enabled(s, e)
  {
    Actor(e).Some? && CallsEnter(s.requests[Actor(e).value], e)
  }

  /** A step by a managed request past its check, other than a look that changes nothing. */
  predicate Productive(s: State, e: Step)
    requires Enabled(s, e)
  {
    Actor(e).Some? && Rank(s.requests[Actor(e).value]) > 0 && !(e.LookWhilePausing? && !ShouldAbort(s.coord))
  }

  lemma StepShrinks(s: State, e: Step)
    requires Enabled(s, e) && s.coord.shuttingDown
    ensures Next(s, e).coord.shuttingDown
    ensures Potential(Next(s, e)) + One(Enters(s, e)) <= Potential(s)
    ensures Work(Next(s, e)) + One(Productive(s, e)) <= Work(s)
  {
    if Actor(e).Some? {
      var i := Actor(e).value;
      var p := NextPhase(s.coord, s.requests[i], e);
      TotalUpdate(Pending, s.requests, i, p);
      TotalUpdate(Rank, s.requests, i, p);
    }
    if e.Arrive? {
      TotalAppend(Pending, s.requests, Arrived(e.limit, e.rules));
      TotalAppend(Rank, s.requests, Arrived(e.limit, e.rules));
    }
  }

  function EntersIn(s: State, steps: seq<Step>): nat
    requires Runs(s, steps)
    decreases |steps|
  {
    if steps == [] then 0 else One(Enters(s, steps[0])) + EntersIn(Next(s, steps[0]), steps[1..])
  }

  function ProductiveIn(s: State, steps: seq<Step>): nat
    requires Runs(s, steps)
    decreases |steps|
  {
    if steps == [] then 0 else One(Productive(s, steps[0])) + ProductiveIn(Next(s, steps[0]), steps[1..])
  }

  /**
    Drain progress: once a shutdown has begun, in any interleaving the responses
    still entered are no more than the requests that were past a check without
    being inside a response, and the productive steps of all requests past their
    check are bounded by the work that was left.
   */
  lemma {:induction false} DrainProgress(s: State, steps: seq<Step>)
    requires Runs(s, steps) && s.coord.shuttingDown
    ensures EntersIn(s, steps) + Potential(After(s, steps)) <= Potential(s)
    ensures ProductiveIn(s, steps) + Work(After(s, steps)) <= Work(s)
    decreases |steps|
  {
    if steps != [] {
      StepShrinks(s, steps[0]);
      DrainProgress(Next(s, steps[0]), steps[1..]);
    }
  }

  /** The phases a request can still pass through after the shutdown, by where it stood. */
  ghost predicate Contained(was: Phase, now: Phase) {
    && (Managed(was) ==> now == was || now.Answering? || now.Done?)
    && (was.Answering? ==> now.Answering? || now.Done?)
    && (was.Done? ==> now.Done?)
    && (was.Delaying? ==> now.Delaying? || now.Slept? || now.Refusing? || now.Done?)
    && (was.Slept? ==> now.Slept? || now.Refusing? || now.Done?)
    && (was.Refusing? ==> now.Refusing? || now.Done?)
  }

  lemma StepContains(s: State, e: Step, i: nat)
    requires Enabled(s, e) && s.coord.shuttingDown && i < |s.requests|
    ensures |s.requests| <= |Next(s, e).requests| && Contained(s.requests[i], Next(s, e).requests[i])
    ensures Next(s, e).coord.shuttingDown
  {
  }

  /**
    After the shutdown has begun no managed request gets past its check, and a
    request in its policy delay ends refused, aborted or broken off: neither ever
    reaches the handler.
   */
  lemma {:induction false} ShutdownHoldsRequests(s: State, steps: seq<Step>, i: nat)
    requires Runs(s, steps) && s.coord.shuttingDown && i < |s.requests|
    ensures i < |After(s, steps).requests| && Contained(s.requests[i], After(s, steps).requests[i])
    decreases |steps|
  {
    if steps != [] {
      StepContains(s, steps[0], i);
      ShutdownHoldsRequests(Next(s, steps[0]), steps[1..], i);
    }
  }

  /** After the shutdown, whoever becomes counted was pending. */
  lemma StepTotals(s: State, e: Step)
    requires Enabled(s, e) && s.coord.shuttingDown
    ensures InResponse(Next(s, e)) + Potential(Next(s, e)) <= InResponse(s) + Potential(s)
  {
    if Actor(e).Some? {
      var i := Actor(e).value;
      var p := NextPhase(s.coord, s.requests[i], e);
      TotalUpdate(CountedOne, s.requests, i, p);
      TotalUpdate(Pending, s.requests, i, p);
    }
    if e.Arrive? {
      TotalAppend(CountedOne, s.requests, Arrived(e.limit, e.rules));
      TotalAppend(Pending, s.requests, Arrived(e.limit, e.rules));
    }
  }

  lemma {:induction false} TotalsTogether(s: State, steps: seq<Step>)
    requires Runs(s, steps) && s.coord.shuttingDown
    ensures InResponse(After(s, steps)) + Potential(After(s, steps)) <= InResponse(s) + Potential(s)
    decreases |steps|
  {
    if steps != [] {
      StepTotals(s, steps[0]);
      TotalsTogether(Next(s, steps[0]), steps[1..]);
    }
  }

  ghost predicate StaysDrained(s: State) {
    forall steps | Runs(s, steps) :: InResponse(After(s, steps)) == 0
  }

  /**
    An empty count is final exactly when nothing is pending: `wait_until_drained`
    may answer True while a request that passed its check before the shutdown is
    still about to begin a limited response.
   */
  lemma DrainedForGoodIffNothingPending(s: State)
    requires s.coord.shuttingDown && InResponse(s) == 0
    ensures StaysDrained(s) <==> Potential(s) == 0
  {
    if Potential(s) == 0 {
      forall steps | Runs(s, steps) ensures InResponse(After(s, steps)) == 0 {
        TotalsTogether(s, steps);
      }
    } else {
      TotalMember(Pending, s.requests);
      var i :| 0 <= i < |s.requests| && Pending(s.requests[i]) > 0;
      PendingCanEnter(s, i);
    }
  }

  lemma SingleStep(s: State, e: Step)
    requires Enabled(s, e)
    ensures Runs(s, [e]) && After(s, [e]) == Next(s, e)
  {
    assert [e][1..] == [];
    assert Runs(Next(s, e), []);
    assert After(Next(s, e), []) == Next(s, e);
  }

  lemma TwoSteps(s: State, e: Step, f: Step)
    requires Enabled(s, e) && Enabled(Next(s, e), f)
    ensures Runs(s, [e, f]) && After(s, [e, f]) == Next(Next(s, e), f)
  {
    assert [e, f][1..] == [f];
    SingleStep(Next(s, e), f);
  }

  lemma NotDrained(s: State, steps: seq<Step>, i: nat)
    requires Runs(s, steps) && i < |After(s, steps).requests| && Counted(After(s, steps).requests[i])
    ensures InResponse(After(s, steps)) > 0 && !StaysDrained(s)
  {
    TotalMember(CountedOne, After(s, steps).requests);
    assert CountedOne(After(s, steps).requests[i]) > 0;
  }

  /** Each kind of pending request has steps that lead it into a response. */
  lemma PendingCanEnter(s: State, i: nat)
    requires i < |s.requests| && MayEnter(s.requests[i]) && InResponse(s) == 0
    ensures !StaysDrained(s)
  {
    var p := s.requests[i];
    TotalMember(CountedOne, s.requests);
    assert CountedOne(p) == 0;
    if p.Ready? {
      SingleStep(s, BeginResponse(i));
      NotDrained(s, [BeginResponse(i)], i);
    } else if c :| p.can(c) && VerdictOf(Selected(Some(c))).Pause? {
      var told := Selected(Some(c));
      SingleStep(s, Judge(i, told));
      NotDrained(s, [Judge(i, told)], i);
    } else {
      var told := if p.limit.Some? then Selected(None) else SlowOne(p.can);
      TwoSteps(s, Judge(i, told), BeginResponse(i));
      NotDrained(s, [Judge(i, told), BeginResponse(i)], i);
    }
  }

  ghost function SlowOne(can: Selectable): (told: Told)
    requires exists c :: can(c) && Slows(VerdictOf(Selected(Some(c)))) && VerdictOf(Selected(Some(c))).Slow?
    ensures CanBeTold(can, told) && VerdictOf(told).Slow? && Slows(VerdictOf(told))
  {
    var c :| can(c) && Slows(VerdictOf(Selected(Some(c)))) && VerdictOf(Selected(Some(c))).Slow?;
    Selected(Some(c))
  }

  // ------------------------------------------------------------ drained too early

  /** A shutdown begins, and someone waits for it until the first poll. */
  function WaitOnce(rest: seq<Step>): seq<Step> {
    [BeginShutdown(Drain)] + ([StartWaiting(None)] + ([PollWaiting(0.0)] + rest))
  }

  /** All that while a request is being evaluated. */
  function Opening(rate: pos, can: Selectable, rest: seq<Step>): seq<Step> {
    [Arrive(Some(rate), Some(can))] + ([Check(0)] + WaitOnce(rest))
  }

  /** Where the opening leads: the request is past its check, and the wait is over. */
  function DrainedPoint(rate: pos, can: Selectable): State {
    State(Begin(FRESH, Drain), [Deciding(Some(rate), can)], Returned(true))
  }

  lemma Prepend(s: State, e: Step, steps: seq<Step>)
    requires Enabled(s, e) && Runs(Next(s, e), steps)
    ensures Runs(s, [e] + steps) && After(s, [e] + steps) == After(Next(s, e), steps)
  {
    assert ([e] + steps)[1..] == steps;
  }

  function Evaluating(rate: pos, can: Selectable): State {
    State(FRESH, [Deciding(Some(rate), can)], Idle)
  }

  lemma WaitEnds(rate: pos, can: Selectable, rest: seq<Step>)
    requires Runs(DrainedPoint(rate, can), rest)
    ensures Runs(Evaluating(rate, can), WaitOnce(rest))
    ensures After(Evaluating(rate, can), WaitOnce(rest)) == After(DrainedPoint(rate, can), rest)
  {
    var begun := Evaluating(rate, can).(coord := Begin(FRESH, Drain));
    var polled := [PollWaiting(0.0)] + rest;
    Prepend(begun.(waiter := Waiting(None)), PollWaiting(0.0), rest);
    Prepend(begun, StartWaiting(None), polled);
    Prepend(Evaluating(rate, can), BeginShutdown(Drain), [StartWaiting(None)] + polled);
  }

  lemma OpeningLeads(rate: pos, can: Selectable, rest: seq<Step>)
    requires Runs(DrainedPoint(rate, can), rest)
    ensures Runs(START, Opening(rate, can, rest))
    ensures After(START, Opening(rate, can, rest)) == After(DrainedPoint(rate, can), rest)
  {
    var arrived := State(FRESH, [Arrived(Some(rate), Some(can))], Idle);
    assert Next(START, Arrive(Some(rate), Some(can))) == arrived;
    assert Next(arrived, Check(0)) == Evaluating(rate, can) by {
      assert arrived.requests[0 := Deciding(Some(rate), can)] == [Deciding(Some(rate), can)];
    }
    WaitEnds(rate, can, rest);
    Prepend(arrived, Check(0), WaitOnce(rest));
    Prepend(START, Arrive(Some(rate), Some(can)), [Check(0)] + WaitOnce(rest));
  }

  /**
    From the start: `wait_until_drained` answers True although a request is past
    its check, and afterwards its response begins.
   */
  lemma DrainedTooEarly(rate: pos, can: Selectable)
    ensures
      var opening := Opening(rate, can, []);
      Runs(START, opening) && After(START, opening).waiter == Returned(true) && After(START, opening).coord.shuttingDown
    ensures
      var whole := Opening(rate, can, [Judge(0, Selected(None)), BeginResponse(0)]);
      Runs(START, whole) && InResponse(After(START, whole)) == 1
  {
    var end := State(Enter(Begin(FRESH, Drain)), [Sending(rate)], Returned(true));
    OpeningLeads(rate, can, []);
    TwoSteps(DrainedPoint(rate, can), Judge(0, Selected(None)), BeginResponse(0));
    OpeningLeads(rate, can, [Judge(0, Selected(None)), BeginResponse(0)]);
    assert end.requests[..0] == [];
    assert InResponse(end) == Total(CountedOne, []) + 1;
  }
}
