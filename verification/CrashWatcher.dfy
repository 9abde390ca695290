/** The watcher that turns container exits into restarts, and the flags other actions leave for it. */
module CrashWatcher {
  import opened Basics

  const NANOS_PER_SEC: nat := 1_000_000_000

  // One container's watcher: not yet given the container's update channel, reading it, between marking a
  // crash as handled and deciding on it, or ended.
  datatype Watcher = Unwatched | Watching | Deciding | Ended

  // A container incarnation, and how many starts its watcher has triggered.
  datatype Incarnation = Incarnation(watcher: Watcher, started: nat)

  // What is known of an exit: crash detection is on for this server, the exit was clean (code zero, not out
  // of memory, and clean exits do not count as crashes).
  datatype Exit = Exit(detects: bool, clean: bool)

  // `crashes` lists the instants of the crash restarts. The counters: times `crash_handled` was cleared,
  // restarts asked for, and starts answering them.
  datatype Server = Server(online: bool, restarting: bool, stopping: bool, crashHandled: bool,
                           hasContainer: bool, lastCrash: Option<nat>, incarnations: seq<Incarnation>, clock: nat,
                           crashes: seq<nat>, cleared: nat, asked: nat, restarts: nat)

  datatype Step =
    | SetupContainer(creates: bool) // whether a container can be created, should there be none
    | AttachContainer // one container found, the slot having been free when the attach began
    | DestroyContainer
    | AttachSettled // five seconds after an attach
    | Watch(index: nat) // `setup_websocket_sender`
    | Abort(index: nat)
    | ChannelClosed(index: nat)
    | Exited(index: nat, exit: Exit)
    | Decide(index: nat, now: nat, later: nat) // the clock as it is compared and as it is stored
    | AskStop // `stop` and `kill` store the flag
    | AskRestart
    | SetOnline(online: bool)

  predicate Enabled(s: Server, step: Step) {
    match step
    case Watch(i) => i < |s.incarnations|
    case Abort(i) => i < |s.incarnations|
    case ChannelClosed(i) => i < |s.incarnations| && s.incarnations[i].watcher.Watching?
    case Exited(i, _) => i < |s.incarnations| && s.incarnations[i].watcher.Watching?
    case Decide(i, now, later) =>
      i < |s.incarnations| && s.incarnations[i].watcher.Deciding? && s.clock <= now <= later
    case _ => true
  }

  function With(s: Server, i: nat, watcher: Watcher, starts: nat): Server
    requires i < |s.incarnations|
  {
    s.(incarnations := s.incarnations[i := Incarnation(watcher, s.incarnations[i].started + starts)])
  }

  // Handling of an exit up to the point where a crash has been marked as handled.
  function Handled(s: Server, i: nat, exit: Exit): Server
    requires i < |s.incarnations|
  {
    if s.restarting then
      With(s, i, Ended, 1).(online := false, crashHandled := true, restarting := false, stopping := false,
                            restarts := s.restarts + 1)
    else if s.stopping then
      With(s, i, Ended, 0).(online := false, crashHandled := true, stopping := false)
    else if exit.detects && !s.crashHandled then
      With(s, i, if exit.clean then Ended else Deciding, 0).(online := false, crashHandled := true)
    else
      With(s, i, Ended, 0).(online := false)
  }

  // An instant that lies ahead counts as no time ago.
  function ElapsedSecs(since: nat, now: nat): nat {
    if now >= since then (now - since) / NANOS_PER_SEC else 0
  }

  predicate TooSoon(lastCrash: Option<nat>, now: nat, timeout: nat) {
    lastCrash.Some? && ElapsedSecs(lastCrash.value, now) < timeout
  }

  function Decided(s: Server, timeout: nat, i: nat, now: nat, later: nat): Server
    requires i < |s.incarnations|
  {
    if TooSoon(s.lastCrash, now, timeout) then With(s, i, Ended, 0).(clock := later)
    else With(s, i, Ended, 1).(clock := later, lastCrash := Some(later), crashes := s.crashes + [later])
  }

  function Next(s: Server, timeout: nat, step: Step): Server
    requires Enabled(s, step)
  {
    match step
    case SetupContainer(creates) =>
      var unhandled := s.(crashHandled := false, cleared := s.cleared + 1);
      if s.hasContainer || !creates then unhandled
      else unhandled.(hasContainer := true, incarnations := s.incarnations + [Incarnation(Unwatched, 0)])
    case AttachContainer =>
      s.(crashHandled := true, hasContainer := true, incarnations := s.incarnations + [Incarnation(Unwatched, 0)])
    case DestroyContainer => s.(hasContainer := false)
    case AttachSettled => if s.online then s.(crashHandled := false, cleared := s.cleared + 1) else s
    case Watch(i) => if s.incarnations[i].watcher.Unwatched? then With(s, i, Watching, 0) else s
    case Abort(i) => if s.incarnations[i].watcher.Unwatched? then s else With(s, i, Ended, 0)
    case ChannelClosed(i) => With(s, i, Ended, 0)
    case Exited(i, exit) => Handled(s, i, exit)
    case Decide(i, now, later) => Decided(s, timeout, i, now, later)
    case AskStop => s.(stopping := true)
    case AskRestart => if s.restarting then s else s.(restarting := true, asked := s.asked + 1)
    case SetOnline(online) => s.(online := online)
  }

  predicate Possible(s: Server, timeout: nat, run: seq<Step>)
    decreases run
  {
    run == [] || (Enabled(s, run[0]) && Possible(Next(s, timeout, run[0]), timeout, run[1..]))
  }

  function Run(s: Server, timeout: nat, run: seq<Step>): Server
    requires Possible(s, timeout, run)
    decreases run
  {
    if run == [] then s else Run(Next(s, timeout, run[0]), timeout, run[1..])
  }

  function Booted(clock: nat): Server {
    Server(false, false, false, false, false, None, [], clock, [], 0, 0, 0)
  }

  function Undecided(incarnations: seq<Incarnation>): nat {
    if incarnations == [] then 0
    else Undecided(incarnations[1..]) + if incarnations[0].watcher.Deciding? then 1 else 0
  }

  function Started(incarnations: seq<Incarnation>): nat {
    if incarnations == [] then 0 else Started(incarnations[1..]) + incarnations[0].started
  }

  lemma {:induction false} SumsSet(xs: seq<Incarnation>, i: nat, x: Incarnation)
    requires i < |xs|
    ensures Undecided(xs[i := x])
      == Undecided(xs) - (if xs[i].watcher.Deciding? then 1 else 0) + (if x.watcher.Deciding? then 1 else 0)
    ensures Started(xs[i := x]) == Started(xs) - xs[i].started + x.started
  {
    if i > 0 {
      SumsSet(xs[1..], i - 1, x);
      assert xs[i := x][1..] == xs[1..][i - 1 := x];
    }
  }

  lemma {:induction false} SumsAppend(xs: seq<Incarnation>)
    ensures Undecided(xs + [Incarnation(Unwatched, 0)]) == Undecided(xs)
    ensures Started(xs + [Incarnation(Unwatched, 0)]) == Started(xs)
  {
    var more := xs + [Incarnation(Unwatched, 0)];
    if xs == [] {
      assert more[1..] == [];
    } else {
      SumsAppend(xs[1..]);
      assert more[1..] == xs[1..] + [Incarnation(Unwatched, 0)];
    }
  }

  // Crash restarts are at least the timeout apart, in order, and none is later than the clock.
  predicate Spaced(crashes: seq<nat>, timeout: nat) {
    forall i | 0 < i < |crashes| :: crashes[i - 1] + timeout * 1_000_000_000 <= crashes[i]
  }

  predicate StartsOnce(x: Incarnation) {
    x.started <= if x.watcher.Ended? then 1 else 0
  }

  predicate OneStartEach(incarnations: seq<Incarnation>) {
    forall x | x in incarnations :: StartsOnce(x)
  }

  predicate Sound(s: Server, timeout: nat) {
    && Spaced(s.crashes, timeout)
    && s.lastCrash == (if s.crashes == [] then None else Some(s.crashes[|s.crashes| - 1]))
    && (s.crashes != [] ==> s.crashes[|s.crashes| - 1] <= s.clock)
    && OneStartEach(s.incarnations)
  }

  // Every start has its cause: each crash restart a clearing of `crash_handled`, each other a restart asked for.
  predicate Caused(s: Server) {
    && |s.crashes| + Undecided(s.incarnations) + (if s.crashHandled then 0 else 1) <= s.cleared + 1
    && s.restarts + (if s.restarting then 1 else 0) <= s.asked
    && Started(s.incarnations) == |s.crashes| + s.restarts
  }

  lemma WithSums(s: Server, i: nat, watcher: Watcher, starts: nat)
    requires i < |s.incarnations|
    ensures var after := With(s, i, watcher, starts).incarnations;
      && Undecided(after) == Undecided(s.incarnations)
                             - (if s.incarnations[i].watcher.Deciding? then 1 else 0)
                             + (if watcher.Deciding? then 1 else 0)
      && Started(after) == Started(s.incarnations) + starts
      && With(s, i, watcher, starts) == s.(incarnations := after)
  {
    SumsSet(s.incarnations, i, Incarnation(watcher, s.incarnations[i].started + starts));
  }

  lemma ExitCaused(s: Server, i: nat, exit: Exit)
    requires Caused(s) && i < |s.incarnations| && s.incarnations[i].watcher.Watching?
    ensures Caused(Handled(s, i, exit))
  {
    hide Undecided;
    hide Started;
    WithSums(s, i, Ended, 1);
    WithSums(s, i, Ended, 0);
    WithSums(s, i, Deciding, 0);
    hide With;
  }

  lemma DecisionCaused(s: Server, timeout: nat, i: nat, now: nat, later: nat)
    requires Caused(s) && i < |s.incarnations| && s.incarnations[i].watcher.Deciding?
    ensures Caused(Decided(s, timeout, i, now, later))
  {
    hide Undecided;
    hide Started;
    WithSums(s, i, Ended, 1);
    WithSums(s, i, Ended, 0);
    hide With;
  }

  lemma StepCaused(s: Server, timeout: nat, step: Step)
    requires Caused(s) && Enabled(s, step)
    ensures Caused(Next(s, timeout, step))
  {
    hide Undecided;
    hide Started;
    hide With;
    hide Handled;
    hide Decided;
    SumsAppend(s.incarnations);
    match step
    case Watch(i) => WithSums(s, i, Watching, 0);
    case Abort(i) => WithSums(s, i, Ended, 0);
    case ChannelClosed(i) => WithSums(s, i, Ended, 0);
    case Exited(i, exit) => ExitCaused(s, i, exit);
    case Decide(i, now, later) => DecisionCaused(s, timeout, i, now, later);
    case _ =>
  }

  lemma SetStartsOnce(xs: seq<Incarnation>, i: nat, x: Incarnation)
    requires OneStartEach(xs) && i < |xs| && (StartsOnce(xs[i]) ==> StartsOnce(x))
    ensures OneStartEach(xs[i := x]) && StartsOnce(xs[i])
  {
    assert xs[i] in xs;
    hide StartsOnce;
    forall y | y in xs[i := x] ensures StartsOnce(y) {
      var j :| 0 <= j < |xs| && xs[i := x][j] == y;
      assert j != i ==> y in xs;
    }
  }

  lemma StepOneStart(s: Server, timeout: nat, step: Step)
    requires OneStartEach(s.incarnations) && Enabled(s, step)
    ensures OneStartEach(Next(s, timeout, step).incarnations)
  {
    if step.Watch? || step.Abort? || step.ChannelClosed? || step.Exited? || step.Decide? {
      var x := Next(s, timeout, step).incarnations[step.index];
      hide OneStartEach;
      SetStartsOnce(s.incarnations, step.index, x);
      assert s.incarnations[step.index := s.incarnations[step.index]] == s.incarnations;
    }
  }

  lemma StepSpaced(s: Server, timeout: nat, i: nat, now: nat, later: nat)
    requires Sound(s, timeout) && Enabled(s, Decide(i, now, later))
    ensures var after := Decided(s, timeout, i, now, later);
      && Spaced(after.crashes, timeout)
      && (after.crashes == s.crashes || after.crashes == s.crashes + [later])
  {
    if !TooSoon(s.lastCrash, now, timeout) && s.crashes != [] {
      var last := s.crashes[|s.crashes| - 1];
      assert last + timeout * 1_000_000_000 <= later;
    }
  }

  lemma OthersKeepCrashes(s: Server, timeout: nat, step: Step)
    requires Enabled(s, step) && !step.Decide?
    ensures var after := Next(s, timeout, step);
      after.crashes == s.crashes && after.lastCrash == s.lastCrash && after.clock == s.clock
  {
    hide Handled;
    if step.Exited? {
      HandledKeeps(s, step.index, step.exit);
    }
  }

  lemma StepSound(s: Server, timeout: nat, step: Step)
    requires Sound(s, timeout) && Enabled(s, step)
    ensures Sound(Next(s, timeout, step), timeout)
  {
    hide Spaced;
    hide OneStartEach;
    StepOneStart(s, timeout, step);
    if step.Decide? {
      StepSpaced(s, timeout, step.index, step.now, step.later);
    } else {
      hide Next;
      OthersKeepCrashes(s, timeout, step);
    }
  }

  lemma {:induction false} RunSound(s: Server, timeout: nat, run: seq<Step>)
    requires Sound(s, timeout) && Caused(s) && Possible(s, timeout, run)
    ensures Sound(Run(s, timeout, run), timeout) && Caused(Run(s, timeout, run))
    decreases run
  {
    hide Sound;
    hide Caused;
    hide Next;
    if run != [] {
      StepSound(s, timeout, run[0]);
      StepCaused(s, timeout, run[0]);
      RunSound(Next(s, timeout, run[0]), timeout, run[1..]);
    }
  }

  lemma {:induction false} SpacedApart(crashes: seq<nat>, timeout: nat, i: nat, j: nat)
    requires Spaced(crashes, timeout) && i <= j < |crashes|
    ensures crashes[i] + (j - i) * (timeout * 1_000_000_000) <= crashes[j]
    decreases j
  {
    if i < j {
      SpacedApart(crashes, timeout, i, j - 1);
      var gap := timeout * 1_000_000_000;
      assert (j - i) * gap == (j - 1 - i) * gap + gap;
    }
  }

  // Main result: over every run, any two crash restarts are the timeout apart for every one between them;
  // each container's exit is answered by at most one start; and a start is always owed, to a crash since
  // `crash_handled` was last cleared or to a restart that was asked for.
  lemma RestartsBounded(clock: nat, timeout: nat, run: seq<Step>)
    requires Possible(Booted(clock), timeout, run)
    ensures var s := Run(Booted(clock), timeout, run);
      && (forall i, j | 0 <= i <= j < |s.crashes| ::
            s.crashes[i] + (j - i) * (timeout * 1_000_000_000) <= s.crashes[j])
      && OneStartEach(s.incarnations)
      && Started(s.incarnations) == |s.crashes| + s.restarts
      && |s.crashes| <= s.cleared + 1 && s.restarts <= s.asked
  {
    RunSound(Booted(clock), timeout, run);
    var s := Run(Booted(clock), timeout, run);
    forall i, j | 0 <= i <= j < |s.crashes|
      ensures s.crashes[i] + (j - i) * (timeout * 1_000_000_000) <= s.crashes[j]
    {
      SpacedApart(s.crashes, timeout, i, j);
    }
  }

  // No crash restart is on record, or the last one is the timeout ago, to the nanosecond.
  predicate LongAgo(crashes: seq<nat>, now: nat, timeout: nat) {
    crashes == [] || now >= crashes[|crashes| - 1] + timeout * 1_000_000_000
  }

  // A decision in a state that runs can reach: the server is started, and the restart put on record, exactly if
  // that is so.
  lemma DecisionStarts(s: Server, timeout: nat, i: nat, now: nat, later: nat)
    requires Sound(s, timeout) && Enabled(s, Decide(i, now, later))
    ensures var after, starts := Next(s, timeout, Decide(i, now, later)), LongAgo(s.crashes, now, timeout);
      && after.incarnations[i] == Incarnation(Ended, s.incarnations[i].started + if starts then 1 else 0)
      && after.crashes == (if starts then s.crashes + [later] else s.crashes)
      && after.lastCrash == (if starts then Some(later) else s.lastCrash) && after.clock == later
  {
    hide Spaced;
    hide OneStartEach;
  }

  // The step is the decision of this watcher, and it is to start.
  predicate GrantedBy(s: Server, timeout: nat, i: nat, step: Step) {
    step.Decide? && step.index == i && LongAgo(s.crashes, step.now, timeout)
  }

  // What one step makes of a watcher that has ended or is to decide.
  lemma StepWatcher(s: Server, timeout: nat, i: nat, step: Step)
    requires Enabled(s, step) && i < |s.incarnations|
    ensures var after := Next(s, timeout, step).incarnations;
      && i < |after|
      && (s.incarnations[i].watcher.Ended? ==> after[i] == s.incarnations[i] && !GrantedBy(s, timeout, i, step))
      && (Sound(s, timeout) && s.incarnations[i] == Incarnation(Deciding, 0) ==>
            if GrantedBy(s, timeout, i, step) then after[i] == Incarnation(Ended, 1)
            else after[i] == Incarnation(Deciding, 0) || after[i] == Incarnation(Ended, 0))
  {
    hide Handled;
    hide Decided;
    hide LongAgo;
    hide Sound;
    if step.Exited? {
      HandledKeeps(s, step.index, step.exit);
    } else if step.Decide? {
      DecidedKeeps(s, timeout, step.index, step.now, step.later);
      if Sound(s, timeout) {
        DecisionStarts(s, timeout, step.index, step.now, step.later);
      }
    }
  }

  // What handling an exit leaves as it was.
  lemma HandledKeeps(s: Server, k: nat, exit: Exit)
    requires k < |s.incarnations|
    ensures var after := Handled(s, k, exit);
      && after.crashes == s.crashes && after.lastCrash == s.lastCrash && after.clock == s.clock
      && |after.incarnations| == |s.incarnations|
      && forall i | 0 <= i < |s.incarnations| && i != k :: after.incarnations[i] == s.incarnations[i]
  {
  }

  // And what a decision does.
  lemma DecidedKeeps(s: Server, timeout: nat, k: nat, now: nat, later: nat)
    requires k < |s.incarnations|
    ensures var after := Decided(s, timeout, k, now, later);
      && after.crashHandled == s.crashHandled && after.restarting == s.restarting
      && after.stopping == s.stopping && after.online == s.online
      && |after.incarnations| == |s.incarnations|
      && forall i | 0 <= i < |s.incarnations| && i != k :: after.incarnations[i] == s.incarnations[i]
  {
    hide TooSoon;
  }

  // An ended watcher starts nothing more.
  lemma {:induction false} EndedStays(s: Server, timeout: nat, i: nat, run: seq<Step>)
    requires Possible(s, timeout, run) && i < |s.incarnations| && s.incarnations[i].watcher.Ended?
    ensures var after := Run(s, timeout, run).incarnations;
      i < |after| && after[i] == s.incarnations[i]
    decreases run
  {
    hide Next;
    if run != [] {
      StepWatcher(s, timeout, i, run[0]);
      EndedStays(Next(s, timeout, run[0]), timeout, i, run[1..]);
    }
  }

  // In this run the watcher gets to decide, and the last crash is long enough ago.
  predicate Grants(s: Server, timeout: nat, i: nat, run: seq<Step>)
    requires Possible(s, timeout, run)
    decreases run
  {
    run != []
    && (GrantedBy(s, timeout, i, run[0])
        || Grants(Next(s, timeout, run[0]), timeout, i, run[1..]))
  }

  lemma {:induction false} EndedGrantsNothing(s: Server, timeout: nat, i: nat, run: seq<Step>)
    requires Possible(s, timeout, run) && i < |s.incarnations| && s.incarnations[i].watcher.Ended?
    ensures !Grants(s, timeout, i, run)
    decreases run
  {
    hide Next;
    hide GrantedBy;
    if run != [] {
      StepWatcher(s, timeout, i, run[0]);
      EndedGrantsNothing(Next(s, timeout, run[0]), timeout, i, run[1..]);
    }
  }

  lemma {:induction false} DecidingSettles(s: Server, timeout: nat, i: nat, run: seq<Step>)
    requires Sound(s, timeout) && Possible(s, timeout, run)
    requires i < |s.incarnations| && s.incarnations[i] == Incarnation(Deciding, 0)
    ensures var after := Run(s, timeout, run).incarnations;
      && i < |after| && (after[i].started == 1 <==> Grants(s, timeout, i, run))
      && after[i].started <= 1
    decreases run
  {
    hide Next;
    hide GrantedBy;
    hide Sound;
    if run != [] {
      var next := Next(s, timeout, run[0]);
      StepSound(s, timeout, run[0]);
      StepWatcher(s, timeout, i, run[0]);
      if next.incarnations[i].watcher.Ended? {
        EndedStays(next, timeout, i, run[1..]);
        EndedGrantsNothing(next, timeout, i, run[1..]);
      } else {
        DecidingSettles(next, timeout, i, run[1..]);
      }
    }
  }

  // The exit is a crash: nobody asked for it, detection is on, it was unclean, and no crash is being handled.
  predicate Crashed(s: Server, exit: Exit) {
    !s.restarting && !s.stopping && exit == Exit(true, false) && !s.crashHandled
  }

  // Main result: whatever happens after an exit, its watcher has started the server in the end exactly if a
  // restart had been asked for, or if it was a crash and the decision on it found the last one the timeout
  // ago. In particular a stop with no restart asked for is never followed by a start.
  lemma ExitAnswered(s: Server, timeout: nat, i: nat, exit: Exit, run: seq<Step>)
    requires Sound(s, timeout) && i < |s.incarnations| && s.incarnations[i] == Incarnation(Watching, 0)
    requires Possible(Next(s, timeout, Exited(i, exit)), timeout, run)
    ensures var next := Next(s, timeout, Exited(i, exit));
      var after := Run(next, timeout, run).incarnations;
      && i < |after| && after[i].started <= 1
      && (after[i].started == 1 <==> s.restarting || (Crashed(s, exit) && Grants(next, timeout, i, run)))
  {
    var next := Next(s, timeout, Exited(i, exit));
    StepSound(s, timeout, Exited(i, exit));
    hide Sound;
    if next.incarnations[i].watcher.Deciding? {
      DecidingSettles(next, timeout, i, run);
    } else {
      EndedStays(next, timeout, i, run);
    }
  }

  // An exit leaves no flag behind for the next one, takes the server offline, and counts as handled unless it
  // was one to be ignored.
  lemma ExitClears(s: Server, timeout: nat, i: nat, exit: Exit)
    requires Enabled(s, Exited(i, exit))
    ensures var after := Next(s, timeout, Exited(i, exit));
      && !after.online && !after.restarting && !after.stopping
      && (after.crashHandled <==> s.crashHandled || s.restarting || s.stopping || exit.detects)
      && after.hasContainer == s.hasContainer && after.lastCrash == s.lastCrash && after.clock == s.clock
  {
  }

  // The flags as the other steps leave them.
  lemma FlagsKept(s: Server, timeout: nat, step: Step)
    requires Enabled(s, step) && !step.Exited?
    ensures var after := Next(s, timeout, step);
      && (after.crashHandled <==>
            (s.crashHandled && !step.SetupContainer? && !(step.AttachSettled? && s.online)) || step.AttachContainer?)
      && (after.restarting <==> s.restarting || step.AskRestart?)
      && (after.stopping <==> s.stopping || step.AskStop?)
      && (after.online <==> if step.SetOnline? then step.online else s.online)
  {
    hide Decided;
    if step.Decide? {
      DecidedKeeps(s, timeout, step.index, step.now, step.later);
    }
  }

  // A crash from set-up to restart.
  function CrashRun(i: nat, now: nat, later: nat): seq<Step> {
    [SetupContainer(true)] + ([Watch(i)] + ([Exited(i, Exit(true, false))] + ([Decide(i, now, later)] + [])))
  }

  // Main result: whatever has happened before, a stop that was answered included, the unclean exit of a new
  // container that nobody asked to stop or restart is followed by a start exactly if no crash restart is on
  // record or the last one is the timeout ago; in particular the first crash always is.
  lemma CrashRestarted(s: Server, timeout: nat, now: nat, later: nat)
    requires Sound(s, timeout) && !s.hasContainer && !s.restarting && !s.stopping && s.clock <= now <= later
    ensures var i := |s.incarnations|;
      && Possible(s, timeout, CrashRun(i, now, later))
      && var after := Run(s, timeout, CrashRun(i, now, later)).incarnations;
         |after| == i + 1 && (after[i].started == 1 <==> LongAgo(s.crashes, now, timeout))
  {
    var i := |s.incarnations|;
    var made, watched := SetupContainer(true), Watch(i);
    var exited, decided := Exited(i, Exit(true, false)), Decide(i, now, later);
    var s1 := Next(s, timeout, made);
    var s2 := Next(s1, timeout, watched);
    var s3 := Next(s2, timeout, exited);
    StepSound(s, timeout, made);
    StepSound(s1, timeout, watched);
    StepSound(s2, timeout, exited);
    hide Sound;
    hide LongAgo;
    assert s3.incarnations[i] == Incarnation(Deciding, 0) && s3.crashes == s.crashes;
    DecisionStarts(s3, timeout, i, now, later);
    var s4 := Next(s3, timeout, decided);
    assert Enabled(s, made) && Enabled(s1, watched) && Enabled(s2, exited) && Enabled(s3, decided);
    assert |s4.incarnations| == i + 1;
    hide Next;
    hide Enabled;
    RunFirst(s3, timeout, decided, []);
    RunFirst(s2, timeout, exited, [decided] + []);
    RunFirst(s1, timeout, watched, [exited] + ([decided] + []));
    RunFirst(s, timeout, made, [watched] + ([exited] + ([decided] + [])));
  }

  lemma RunFirst(s: Server, timeout: nat, step: Step, rest: seq<Step>)
    requires Enabled(s, step)
    ensures Possible(s, timeout, [step] + rest) <==> Possible(Next(s, timeout, step), timeout, rest)
    ensures Possible(s, timeout, [step] + rest) ==>
      Run(s, timeout, [step] + rest) == Run(Next(s, timeout, step), timeout, rest)
  {
    assert ([step] + rest)[1..] == rest;
  }

  /** The flags of one server; `log` keeps the containers and counters the theorems speak of. */
  class ServerFlags {
    const timeout: nat
    var online: bool
    var restarting: bool
    var stopping: bool
    var crashHandled: bool
    var hasContainer: bool
    var lastCrash: Option<nat>
    ghost var log: Server

    ghost function State(): Server
      reads this
    {
      log.(online := online, restarting := restarting, stopping := stopping, crashHandled := crashHandled,
           hasContainer := hasContainer, lastCrash := lastCrash)
    }

    constructor (timeout: nat, clock: nat)
      ensures this.timeout == timeout && State() == Booted(clock)
    {
      this.timeout := timeout;
      online, restarting, stopping, crashHandled, hasContainer := false, false, false, false, false;
      lastCrash := None;
      log := Booted(clock);
    }

    // True: a crash, marked as handled, is still to be decided on.
    method HandleExit(exit: Exit, ghost i: nat) returns (starts: bool, crashed: bool)
      requires Enabled(State(), Exited(i, exit))
      modifies this
      ensures State() == Next(old(State()), timeout, Exited(i, exit))
      ensures starts <==> State().incarnations[i].started > old(State()).incarnations[i].started
      ensures crashed <==> State().incarnations[i].watcher.Deciding?
    {
      starts, crashed := false, false;
      online := false;
      log := Handled(State(), i, exit);
      if restarting {
        crashHandled := true;
        restarting := false;
        stopping := false;
        starts := true;
      } else if stopping {
        crashHandled := true;
        stopping := false;
      } else if exit.detects && !crashHandled {
        crashHandled := true;
        if exit.clean {
          return;
        }
        crashed := true;
      }
    }

    // The second half of a crash, under the lock of `last_crash`.
    method DecideRestart(now: nat, later: nat, ghost i: nat) returns (starts: bool)
      requires Enabled(State(), Decide(i, now, later))
      modifies this
      ensures State() == Next(old(State()), timeout, Decide(i, now, later))
      ensures starts <==> State().incarnations[i].started > old(State()).incarnations[i].started
    {
      log := Decided(State(), timeout, i, now, later);
      if lastCrash.Some? {
        if ElapsedSecs(lastCrash.value, now) < timeout {
          return false;
        } else {
          lastCrash := Some(later);
        }
      } else {
        lastCrash := Some(later);
      }
      starts := true;
    }

    // True: a new container takes the free slot.
    method SetupContainer(creates: bool) returns (created: bool)
      modifies this
      ensures State() == Next(old(State()), timeout, Step.SetupContainer(creates))
      ensures created <==> |State().incarnations| > |old(State()).incarnations|
    {
      log := Next(State(), timeout, Step.SetupContainer(creates));
      crashHandled := false;
      if hasContainer || !creates {
        return false;
      }
      hasContainer := true;
      created := true;
    }

    method DestroyContainer()
      modifies this
      ensures State() == Next(old(State()), timeout, Step.DestroyContainer)
    {
      log := Next(State(), timeout, Step.DestroyContainer);
      hasContainer := false;
    }
  }
}
