/** The power-action lock: concurrent callers of `execute_action`, one step at a time. */
module PowerLock {
  datatype ServerState = Offline | Starting | Stopping | Running

  // What one caller is doing. `prior` is the state it read on entry and would restore on failure.
  datatype Caller =
    | Idle
    | Waiting(prior: ServerState, target: ServerState, timed: bool)
    | Cleared(prior: ServerState, target: ServerState, acquired: bool, expired: bool) // about to store the lock
    | Entered(prior: ServerState, target: ServerState) // lock stored, state not yet set
    | InBody(prior: ServerState)
    | Leaving // failed and restored the state, lock not yet released

  // `sent` is every state broadcast so far. The counters: entries that found the lock held, entries after a
  // timeout, and releases that found the lock open.
  datatype Power = Power(state: ServerState, locked: bool, sent: seq<ServerState>, callers: seq<Caller>,
                         overtakes: nat, expired: nat, reopened: nat)

  datatype Step =
    | Call(caller: nat, target: ServerState, timed: bool)
    | Refuse(caller: nat) // no timeout, and the lock is held
    | See(caller: nat) // the lock is seen open
    | Expire(caller: nat)
    | Lock(caller: nat)
    | SeeAndLock(caller: nat) // the two as one, where nothing comes between
    | Begin(caller: nat)
    | Succeed(caller: nat)
    | Fail(caller: nat)
    | Unlock(caller: nat)
    | SetState(state: ServerState) // from outside any action

  predicate Enabled(p: Power, step: Step) {
    step.SetState? ||
    (step.caller < |p.callers| &&
     var c := p.callers[step.caller];
     match step
     case Call(_, _, _) => c.Idle?
     case Refuse(_) => c.Waiting? && !c.timed && p.locked
     case See(_) => c.Waiting? && !p.locked
     case Expire(_) => c.Waiting? && c.timed
     case Lock(_) => c.Cleared?
     case SeeAndLock(_) => c.Waiting? && !p.locked
     case Begin(_) => c.Entered?
     case Succeed(_) => c.InBody?
     case Fail(_) => c.InBody?
     case Unlock(_) => c.Leaving?)
  }

  function Published(p: Power, state: ServerState): Power {
    if p.state == state then p else p.(state := state, sent := p.sent + [state])
  }

  function Released(p: Power): Power {
    p.(locked := false, reopened := if p.locked then p.reopened else p.reopened + 1)
  }

  function With(p: Power, i: nat, c: Caller): Power
    requires i < |p.callers|
  {
    p.(callers := p.callers[i := c])
  }

  function Seen(c: Caller): Caller
    requires c.Waiting?
  {
    Cleared(c.prior, c.target, c.timed, false)
  }

  function LockedBy(p: Power, i: nat, c: Caller): Power
    requires i < |p.callers| && c.Cleared?
  {
    With(p, i, Entered(c.prior, c.target))
      .(locked := true,
        overtakes := if p.locked then p.overtakes + 1 else p.overtakes,
        expired := if c.expired then p.expired + 1 else p.expired)
  }

  function Next(p: Power, step: Step): Power
    requires Enabled(p, step)
  {
    if step.SetState? then Published(p, step.state)
    else
      var i := step.caller;
      var c := p.callers[i];
      match step
      case Call(_, target, timed) => With(p, i, Waiting(p.state, target, timed))
      case Refuse(_) => With(p, i, Idle)
      case See(_) => With(p, i, Seen(c))
      case Expire(_) => With(p, i, Cleared(c.prior, c.target, false, true))
      case Lock(_) => LockedBy(p, i, c)
      case SeeAndLock(_) => LockedBy(p, i, Seen(c))
      case Begin(_) => Published(With(p, i, InBody(c.prior)), c.target)
      case Succeed(_) => Released(With(p, i, Idle))
      case Fail(_) => Published(With(p, i, Leaving), c.prior)
      case Unlock(_) => Released(With(p, i, Idle))
  }

  predicate Possible(p: Power, run: seq<Step>)
    decreases run
  {
    run == [] || (Enabled(p, run[0]) && Possible(Next(p, run[0]), run[1..]))
  }

  function Run(p: Power, run: seq<Step>): Power
    requires Possible(p, run)
    decreases run
  {
    if run == [] then p else Run(Next(p, run[0]), run[1..])
  }

  function Start(callers: nat): Power {
    Power(Offline, false, [], seq(callers, _ => Idle), 0, 0, 0)
  }

  // Inside: from storing the lock to releasing it.
  predicate Inside(c: Caller) {
    c.Entered? || c.InBody? || c.Leaving?
  }

  function Bodies(callers: seq<Caller>): nat {
    if callers == [] then 0 else Bodies(callers[1..]) + if Inside(callers[0]) then 1 else 0
  }

  lemma {:induction false} BodiesSet(callers: seq<Caller>, i: nat, c: Caller)
    requires i < |callers|
    ensures Bodies(callers[i := c])
      == Bodies(callers) - (if Inside(callers[i]) then 1 else 0) + (if Inside(c) then 1 else 0)
  {
    hide Inside;
    if i > 0 {
      BodiesSet(callers[1..], i - 1, c);
      assert callers[i := c][1..] == callers[1..][i - 1 := c];
    } else {
      assert callers[0 := c][1..] == callers[1..];
    }
  }

  function Current(sent: seq<ServerState>): ServerState {
    if sent == [] then Offline else sent[|sent| - 1]
  }

  // Subscribers hear every change and nothing else.
  predicate Heard(sent: seq<ServerState>) {
    forall i | 0 <= i < |sent| :: sent[i] != Current(sent[..i])
  }

  // Bodies are accounted for exactly by the lock, the entries that overtook it, and the releases that found
  // it open already; a held lock has a body.
  predicate Accounted(p: Power) {
    && Bodies(p.callers) + p.reopened == (if p.locked then 1 else 0) + p.overtakes
    && (p.locked ==> Bodies(p.callers) >= 1)
    && Heard(p.sent) && Current(p.sent) == p.state
  }

  lemma PublishedHeard(p: Power, state: ServerState)
    requires Heard(p.sent) && Current(p.sent) == p.state
    ensures Heard(Published(p, state).sent) && Current(Published(p, state).sent) == Published(p, state).state == state
  {
  }

  lemma StepAccounted(p: Power, step: Step)
    requires Accounted(p) && Enabled(p, step)
    ensures Accounted(Next(p, step))
  {
    hide Bodies;
    hide Heard;
    hide Current;
    if step.SetState? {
      PublishedHeard(p, step.state);
    } else {
      var c := p.callers[step.caller];
      BodiesSet(p.callers, step.caller, Next(p, step).callers[step.caller]);
      if step.Begin? {
        PublishedHeard(With(p, step.caller, InBody(c.prior)), c.target);
      } else if step.Fail? {
        PublishedHeard(With(p, step.caller, Leaving), c.prior);
      }
    }
  }

  lemma {:induction false} RunAccounted(p: Power, run: seq<Step>)
    requires Accounted(p) && Possible(p, run)
    ensures Accounted(Run(p, run))
    decreases run
  {
    hide Accounted;
    hide Next;
    if run != [] {
      StepAccounted(p, run[0]);
      RunAccounted(Next(p, run[0]), run[1..]);
    }
  }

  lemma {:induction false} NobodyInside(callers: seq<Caller>)
    requires forall i | 0 <= i < |callers| :: callers[i].Idle?
    ensures Bodies(callers) == 0
  {
    if callers != [] {
      NobodyInside(callers[1..]);
    }
  }

  // Main result: in every interleaving, at most one body more than the entries that found the lock held; a
  // held lock always has a body, so it cannot be left behind; and subscribers hear exactly the changes.
  lemma BodiesBounded(callers: nat, run: seq<Step>)
    requires Possible(Start(callers), run)
    ensures var p := Run(Start(callers), run);
      && Bodies(p.callers) <= (if p.locked then 1 else 0) + p.overtakes
      && (p.locked ==> Bodies(p.callers) >= 1)
      && Heard(p.sent) && Current(p.sent) == p.state
  {
    NobodyInside(Start(callers).callers);
    RunAccounted(Start(callers), run);
  }

  // At some moment of the run two bodies are inside.
  predicate Overlaps(p: Power, run: seq<Step>)
    requires Possible(p, run)
    decreases run
  {
    Bodies(p.callers) >= 2 || (run != [] && Overlaps(Next(p, run[0]), run[1..]))
  }

  lemma {:induction false} OvertakesGrow(p: Power, run: seq<Step>)
    requires Possible(p, run)
    ensures Run(p, run).overtakes >= p.overtakes
    decreases run
  {
    if run != [] {
      assert Next(p, run[0]).overtakes >= p.overtakes;
      hide Next;
      OvertakesGrow(Next(p, run[0]), run[1..]);
    }
  }

  lemma {:induction false} OverlapsWhenOvertaken(p: Power, run: seq<Step>)
    requires Accounted(p) && Possible(p, run) && p.overtakes == 0
    ensures Overlaps(p, run) <==> Run(p, run).overtakes > 0
    decreases run
  {
    if run == [] {
      assert Bodies(p.callers) <= 1;
    } else {
      var next := Next(p, run[0]);
      assert Bodies(p.callers) <= 1;
      StepAccounted(p, run[0]);
      hide Next;
      hide Accounted;
      if next.overtakes > 0 {
        OvertakesGrow(next, run[1..]);
      } else {
        OverlapsWhenOvertaken(next, run[1..]);
      }
    }
  }

  // Main result: two bodies are inside together at some moment of a run if and only if some entry of the run
  // finds the lock held.
  lemma MutualExclusionExactly(callers: nat, run: seq<Step>)
    requires Possible(Start(callers), run)
    ensures Overlaps(Start(callers), run) <==> Run(Start(callers), run).overtakes > 0
  {
    NobodyInside(Start(callers).callers);
    OverlapsWhenOvertaken(Start(callers), run);
  }

  // Nothing comes between a caller's check and its store.
  predicate CheckAndStoreTogether(run: seq<Step>) {
    forall step | step in run :: !step.See?
  }

  // With check and store as one step, only expired callers overtake.
  predicate OnlyExpired(p: Power) {
    && p.overtakes <= p.expired
    && forall c | c in p.callers && c.Cleared? :: c.expired
  }

  lemma StepOnlyExpired(p: Power, step: Step)
    requires OnlyExpired(p) && Enabled(p, step) && !step.See?
    ensures OnlyExpired(Next(p, step))
  {
    var after := Next(p, step);
    if !step.SetState? {
      var i := step.caller;
      assert p.callers[i] in p.callers;
      forall c | c in after.callers && c.Cleared? ensures c.expired {
        var j :| 0 <= j < |after.callers| && after.callers[j] == c;
        assert j != i ==> c == p.callers[j] && p.callers[j] in p.callers;
      }
    }
  }

  lemma {:induction false} RunOnlyExpired(p: Power, run: seq<Step>)
    requires OnlyExpired(p) && Possible(p, run) && CheckAndStoreTogether(run)
    ensures OnlyExpired(Run(p, run))
    decreases run
  {
    hide OnlyExpired;
    hide Next;
    if run != [] {
      assert run[0] in run;
      StepOnlyExpired(p, run[0]);
      RunOnlyExpired(Next(p, run[0]), run[1..]);
    }
  }

  // Main result: with check and store as one step, the bodies are at most one more than the callers that
  // went in after their timeout; so when no wait times out, power actions exclude one another.
  lemma MutualExclusion(callers: nat, run: seq<Step>)
    requires Possible(Start(callers), run) && CheckAndStoreTogether(run)
    ensures var p := Run(Start(callers), run);
      && Bodies(p.callers) <= (if p.locked then 1 else 0) + p.expired
      && (p.expired == 0 ==> Bodies(p.callers) == if p.locked then 1 else 0)
  {
    BodiesBounded(callers, run);
    RunOnlyExpired(Start(callers), run);
  }

  lemma RunNone(p: Power)
    ensures Possible(p, []) && Run(p, []) == p
  {
  }

  lemma RunOne(p: Power, step: Step, rest: seq<Step>)
    requires Enabled(p, step)
    ensures Possible(p, [step] + rest) <==> Possible(Next(p, step), rest)
    ensures Possible(p, [step] + rest) ==> Run(p, [step] + rest) == Run(Next(p, step), rest)
  {
    assert ([step] + rest)[1..] == rest;
  }

  // Two callers without a timeout, each checking before either stores.
  function Race(a: ServerState, b: ServerState): (run: seq<Step>) {
    [Call(0, a, false)] + ([Call(1, b, false)] + ([See(0)] + ([See(1)] + ([Lock(0)] + ([Lock(1)] + [])))))
  }

  lemma RaceEnds(a: ServerState, b: ServerState)
    ensures Possible(Start(2), Race(a, b))
    ensures Run(Start(2), Race(a, b))
      == Power(Offline, true, [], [Entered(Offline, a), Entered(Offline, b)], 1, 0, 0)
  {
    hide Possible;
    hide Run;
    var p0 := Start(2);
    var p2 := p0.(callers := [Waiting(Offline, a, false), Waiting(Offline, b, false)]);
    var p4 := p0.(callers := [Cleared(Offline, a, false, false), Cleared(Offline, b, false, false)]);
    var p6 := Power(Offline, true, [], [Entered(Offline, a), Entered(Offline, b)], 1, 0, 0);
    var p1, p3, p5 := Next(p0, Call(0, a, false)), Next(p2, See(0)), Next(p4, Lock(0));
    assert Next(p1, Call(1, b, false)) == p2 && Next(p3, See(1)) == p4 && Next(p5, Lock(1)) == p6;
    RunNone(p6);
    RunOne(p5, Lock(1), []);
    RunOne(p4, Lock(0), [Lock(1)] + []);
    hide Next;
    hide Enabled;
    RunOne(p3, See(1), [Lock(0)] + ([Lock(1)] + []));
    RunOne(p2, See(0), [See(1)] + ([Lock(0)] + ([Lock(1)] + [])));
    RunOne(p1, Call(1, b, false), [See(0)] + ([See(1)] + ([Lock(0)] + ([Lock(1)] + []))));
    RunOne(p0, Call(0, a, false), [Call(1, b, false)] + ([See(0)] + ([See(1)] + ([Lock(0)] + ([Lock(1)] + [])))));
  }

  // As the code has it, the check and the store are apart, and two callers pass the check together: two
  // bodies run although nobody's timeout expired.
  lemma CheckThenStoreRaces(a: ServerState, b: ServerState)
    ensures Possible(Start(2), Race(a, b)) && !CheckAndStoreTogether(Race(a, b))
    ensures var p := Run(Start(2), Race(a, b));
      Bodies(p.callers) == 2 && p.expired == 0 && p.overtakes == 1
  {
    RaceEnds(a, b);
    assert Race(a, b)[2] == See(0) && Race(a, b)[2] in Race(a, b);
    hide Run;
    hide Possible;
    var both := [Entered(Offline, a), Entered(Offline, b)];
    assert both[1..] == [Entered(Offline, b)] && both[1..][1..] == [];
    assert Bodies(both[1..]) == 1;
  }

  // The step is none of this caller's.
  predicate Foreign(step: Step, i: nat) {
    step.SetState? || step.caller != i
  }

  // The step is none of this caller's, or one of those it takes between its call and its body.
  predicate Approaching(step: Step, i: nat) {
    Foreign(step, i) || step.See? || step.Expire? || step.Lock? || step.SeeAndLock?
  }

  predicate AllForeign(run: seq<Step>, i: nat) {
    forall step | step in run :: Foreign(step, i)
  }

  predicate AllApproaching(run: seq<Step>, i: nat) {
    forall step | step in run :: Approaching(step, i)
  }

  // On its way to its body, with the state it read and the one it will set.
  predicate Bound(c: Caller, prior: ServerState, target: ServerState) {
    (c.Waiting? || c.Cleared? || c.Entered?) && c.prior == prior && c.target == target
  }

  lemma {:induction false} ForeignKeeps(p: Power, run: seq<Step>, i: nat)
    requires Possible(p, run) && AllForeign(run, i) && i < |p.callers|
    ensures |Run(p, run).callers| == |p.callers| && Run(p, run).callers[i] == p.callers[i]
    decreases run
  {
    if run != [] {
      assert run[0] in run;
      ForeignKeeps(Next(p, run[0]), run[1..], i);
    }
  }

  lemma {:induction false} ApproachKeeps(p: Power, run: seq<Step>, i: nat, prior: ServerState, target: ServerState)
    requires Possible(p, run) && AllApproaching(run, i) && i < |p.callers| && Bound(p.callers[i], prior, target)
    ensures |Run(p, run).callers| == |p.callers| && Bound(Run(p, run).callers[i], prior, target)
    decreases run
  {
    if run != [] {
      assert run[0] in run;
      ApproachKeeps(Next(p, run[0]), run[1..], i, prior, target);
    }
  }

  // A caller calls at `p`, gets as far as the lock over the run `before`, begins its body, and ends it by the step
  // `end` after the run `during`; everyone else does anything at all.
  predicate CallsAndEnds(p: Power, i: nat, target: ServerState, timed: bool, before: seq<Step>, during: seq<Step>,
                         end: Step)
  {
    && Enabled(p, Call(i, target, timed)) && AllApproaching(before, i) && AllForeign(during, i)
    && Possible(Next(p, Call(i, target, timed)), before)
    && var ready := Run(Next(p, Call(i, target, timed)), before);
       && Enabled(ready, Begin(i)) && Possible(Next(ready, Begin(i)), during)
       && Enabled(Run(Next(ready, Begin(i)), during), end)
  }

  // Main result: over every run, a failed action leaves the state its caller read before it waited, whichever
  // one its body replaced.
  lemma FailureRestores(p: Power, i: nat, target: ServerState, timed: bool, before: seq<Step>, during: seq<Step>)
    requires CallsAndEnds(p, i, target, timed, before, during, Fail(i))
    ensures var ready := Run(Next(p, Call(i, target, timed)), before);
      var failed := Next(Run(Next(ready, Begin(i)), during), Fail(i));
      failed.state == p.state
  {
    var called := Next(p, Call(i, target, timed));
    ApproachKeeps(called, before, i, p.state, target);
    var begun := Next(Run(called, before), Begin(i));
    ForeignKeeps(begun, during, i);
  }

  // The step is one that can set the state.
  predicate SetsState(step: Step) {
    step.SetState? || step.Begin? || step.Fail?
  }

  lemma {:induction false} StateKept(p: Power, run: seq<Step>)
    requires Possible(p, run) && forall step | step in run :: !SetsState(step)
    ensures Run(p, run).state == p.state
    decreases run
  {
    if run != [] {
      assert run[0] in run;
      StateKept(Next(p, run[0]), run[1..]);
    }
  }

  // Its partner: a body begins with the state the caller asked for, and an action that succeeds takes nothing
  // back and leaves the lock open; so the state asked for stays, unless someone else set one meanwhile.
  lemma SuccessKeeps(p: Power, i: nat, target: ServerState, timed: bool, before: seq<Step>, during: seq<Step>)
    requires CallsAndEnds(p, i, target, timed, before, during, Succeed(i))
    ensures var ready := Run(Next(p, Call(i, target, timed)), before);
      var ends := Run(Next(ready, Begin(i)), during);
      var succeeded := Next(ends, Succeed(i));
      && Next(ready, Begin(i)).state == target
      && succeeded.state == ends.state && !succeeded.locked && succeeded.callers[i].Idle?
      && ((forall step | step in during :: !SetsState(step)) ==> succeeded.state == target)
  {
    var called := Next(p, Call(i, target, timed));
    ApproachKeeps(called, before, i, p.state, target);
    var begun := Next(Run(called, before), Begin(i));
    ForeignKeeps(begun, during, i);
    if forall step | step in during :: !SetsState(step) {
      StateKept(begun, during);
    }
  }

  // One caller waits while another one's action succeeds, then has its turn and fails.
  function OtherSucceeds(b: ServerState, rest: seq<Step>): seq<Step> {
    [Call(1, b, false)] + ([See(1)] + ([Lock(1)] + ([Begin(1)] + ([Succeed(1)] + rest))))
  }

  function Stale(b: ServerState): seq<Step> {
    OtherSucceeds(b, [See(0)] + ([Lock(0)] + []))
  }

  lemma StaleApproaches(b: ServerState)
    ensures AllApproaching(Stale(b), 0)
  {
  }

  lemma OtherSucceedsReaches(a: ServerState, b: ServerState, rest: seq<Step>)
    requires b != Offline
    ensures var waits := Waiting(Offline, a, true);
      var p := Power(Offline, false, [], [waits, Idle], 0, 0, 0);
      var q := p.(state := b, sent := [b]);
      && (Possible(p, OtherSucceeds(b, rest)) <==> Possible(q, rest))
      && (Possible(q, rest) ==> Run(p, OtherSucceeds(b, rest)) == Run(q, rest))
  {
    hide Possible;
    hide Run;
    var waits := Waiting(Offline, a, true);
    var p := Power(Offline, false, [], [waits, Idle], 0, 0, 0);
    var p1 := p.(callers := [waits, Waiting(Offline, b, false)]);
    var p2 := p.(callers := [waits, Cleared(Offline, b, false, false)]);
    var p3 := p.(callers := [waits, Entered(Offline, b)], locked := true);
    var p4 := p.(callers := [waits, InBody(Offline)], locked := true, state := b, sent := [b]);
    assert Next(p, Call(1, b, false)) == p1 && Next(p1, See(1)) == p2 && Next(p2, Lock(1)) == p3;
    assert Next(p3, Begin(1)) == p4 && Next(p4, Succeed(1)) == p.(state := b, sent := [b]);
    RunOne(p, Call(1, b, false), [See(1)] + ([Lock(1)] + ([Begin(1)] + ([Succeed(1)] + rest))));
    RunOne(p1, See(1), [Lock(1)] + ([Begin(1)] + ([Succeed(1)] + rest)));
    RunOne(p2, Lock(1), [Begin(1)] + ([Succeed(1)] + rest));
    RunOne(p3, Begin(1), [Succeed(1)] + rest);
    RunOne(p4, Succeed(1), rest);
  }

  lemma StaleReaches(a: ServerState, b: ServerState)
    requires b != Offline
    ensures var p := Power(Offline, false, [], [Waiting(Offline, a, true), Idle], 0, 0, 0);
      && Possible(p, Stale(b))
      && Run(p, Stale(b)) == Power(b, true, [b], [Entered(Offline, a), Idle], 0, 0, 0)
  {
    hide Possible;
    hide Run;
    hide OtherSucceeds;
    var q := Power(b, false, [b], [Waiting(Offline, a, true), Idle], 0, 0, 0);
    var q1 := q.(callers := [Cleared(Offline, a, true, false), Idle]);
    var q2 := q.(callers := [Entered(Offline, a), Idle], locked := true);
    assert Next(q, See(0)) == q1 && Next(q1, Lock(0)) == q2;
    OtherSucceedsReaches(a, b, [See(0)] + ([Lock(0)] + []));
    RunOne(q, See(0), [Lock(0)] + []);
    RunOne(q1, Lock(0), []);
    RunNone(q2);
  }

  // It need not be: the failed action takes the server back to the state from before the other's success,
  // with no timeout and no overtaking involved.
  lemma StaleRestored(a: ServerState, b: ServerState)
    requires b != Offline
    ensures CallsAndEnds(Start(2), 0, a, true, Stale(b), [], Fail(0))
    ensures var ready := Run(Next(Start(2), Call(0, a, true)), Stale(b));
      var failed := Next(Run(Next(ready, Begin(0)), []), Fail(0));
      ready.state == b && failed.state == Offline && ready.expired == 0 && ready.overtakes == 0
  {
    hide Possible;
    hide Run;
    hide Stale;
    assert Next(Start(2), Call(0, a, true)).callers == [Waiting(Offline, a, true), Idle];
    StaleApproaches(b);
    StaleReaches(a, b);
    RunNone(Next(Power(b, true, [b], [Entered(Offline, a), Idle], 0, 0, 0), Begin(0)));
  }

  class ServerStateLock {
    var state: ServerState
    var locked: bool
    ghost var sent: seq<ServerState>

    ghost predicate Valid()
      reads this
    {
      Heard(sent) && Current(sent) == state
    }

    constructor ()
      ensures Valid() && state == Offline && !locked && sent == []
    {
      state, locked, sent := Offline, false, [];
    }

    method SetState(to: ServerState)
      requires Valid()
      modifies this`state, this`sent
      ensures Valid() && state == to
      ensures sent == if old(state) == to then old(sent) else old(sent) + [to]
    {
      if state == to {
        return;
      }
      state := to;
      sent := sent + [to];
    }

    // One caller with nobody beside it: a held lock stays held until the wait runs out.
    method ExecuteAction(target: ServerState, timed: bool, succeeds: bool) returns (done: bool, ghost acquired: bool)
      requires Valid()
      modifies this
      ensures Valid()
      ensures var before := Power(old(state), old(locked), old(sent), [Idle], 0, 0, 0);
        var run := AloneRun(old(locked), target, timed, succeeds);
        && Possible(before, run)
        && var after := Run(before, run);
           state == after.state && locked == after.locked && sent == after.sent
      ensures done <==> succeeds && (timed || !old(locked))
      ensures state == (if done then target else old(state)) && locked == (old(locked) && !timed)
      ensures acquired <==> timed && !old(locked)
    {
      hide Heard;
      hide Possible;
      hide Run;
      hide AloneRun;
      AloneReaches(Power(state, locked, sent, [Idle], 0, 0, 0), target, timed, succeeds);
      var oldState := state;
      acquired := false;
      if timed {
        if !locked {
          acquired := true;
        }
      } else if locked {
        return false, false;
      }
      locked := true;
      SetState(target);
      if !succeeds {
        SetState(oldState);
        locked := false;
        done := false;
      } else {
        locked := false;
        done := true;
      }
    }
  }

  function AloneRun(locked: bool, target: ServerState, timed: bool, succeeds: bool): seq<Step> {
    [Call(0, target, timed)]
    + (if locked && !timed then [Refuse(0)] + []
       else [if locked then Expire(0) else See(0)] + ([Lock(0)] + ([Begin(0)] + AloneEnd(succeeds))))
  }

  function AloneEnd(succeeds: bool): seq<Step> {
    if succeeds then [Succeed(0)] + [] else [Fail(0)] + ([Unlock(0)] + [])
  }

  // The end of the lone caller's action, from inside its body.
  lemma AloneEnds(p: Power, prior: ServerState, succeeds: bool)
    requires p.callers == [InBody(prior)]
    ensures Possible(p, AloneEnd(succeeds))
    ensures var after, ended := Run(p, AloneEnd(succeeds)), if succeeds then p else Published(p, prior);
      after.callers == [Idle] && after.state == ended.state && after.sent == ended.sent && !after.locked
  {
    hide Possible;
    hide Run;
    if succeeds {
      RunNone(Next(p, Succeed(0)));
      RunOne(p, Succeed(0), []);
    } else {
      var failed := Next(p, Fail(0));
      RunNone(Next(failed, Unlock(0)));
      RunOne(failed, Unlock(0), []);
      RunOne(p, Fail(0), [Unlock(0)] + []);
    }
  }

  lemma AloneReaches(p: Power, target: ServerState, timed: bool, succeeds: bool)
    requires p.callers == [Idle]
    ensures var run := AloneRun(p.locked, target, timed, succeeds);
      && Possible(p, run)
      && var after := Run(p, run);
         && after.callers == [Idle]
         && (if p.locked && !timed then after.state == p.state && after.sent == p.sent && after.locked
             else
               var begun := Published(p, target);
               var ended := if succeeds then begun else Published(begun, p.state);
               after.state == ended.state && after.sent == ended.sent && !after.locked)
  {
    hide Possible;
    hide Run;
    hide AloneEnd;
    var called := Next(p, Call(0, target, timed));
    if p.locked && !timed {
      RunNone(Next(called, Refuse(0)));
      RunOne(called, Refuse(0), []);
      RunOne(p, Call(0, target, timed), [Refuse(0)] + []);
    } else {
      var clear := if p.locked then Expire(0) else See(0);
      var cleared := Next(called, clear);
      var entered := Next(cleared, Lock(0));
      AloneEnds(Next(entered, Begin(0)), p.state, succeeds);
      RunOne(entered, Begin(0), AloneEnd(succeeds));
      RunOne(cleared, Lock(0), [Begin(0)] + AloneEnd(succeeds));
      RunOne(called, clear, [Lock(0)] + ([Begin(0)] + AloneEnd(succeeds)));
      RunOne(p, Call(0, target, timed), [clear] + ([Lock(0)] + ([Begin(0)] + AloneEnd(succeeds))));
    }
  }
}
