/** The quota gate under concurrent callers: the load-and-check and the counter update are separate steps. */
module QuotaRace {
  import opened DiskIndex
  import opened Filesystems
  import PathMaps

  // What one caller of the gate is between: an admitted delta not yet added, or a free whose load has
  // already decided whether it will subtract or store zero.
  datatype Caller = Idle | Admitted(delta: nat) | Subtracting(size: nat) | Zeroing

  datatype Gate = Gate(counter: u64, callers: seq<Caller>)

  datatype Step =
    | Check(caller: nat, delta: nat)
    | Add(caller: nat)
    | LoadFree(caller: nat, size: nat)
    | StoreFree(caller: nat)

  predicate Enabled(g: Gate, step: Step) {
    step.caller < |g.callers| &&
    match step
    case Check(i, delta) => g.callers[i].Idle? && 0 < delta <= I64_MAX
    case Add(i) => g.callers[i].Admitted?
    case LoadFree(i, size) => g.callers[i].Idle? && 0 < size <= I64_MAX + 1
    case StoreFree(i) => g.callers[i].Subtracting? || g.callers[i].Zeroing?
  }

  function Next(g: Gate, limit: i64, step: Step): Gate
    requires Enabled(g, step)
  {
    var i := step.caller;
    match step
    case Check(_, delta) =>
      if Admits(g.counter, limit, delta) then g.(callers := g.callers[i := Admitted(delta)]) else g
    case Add(_) => Gate(WrapU64(g.counter + g.callers[i].delta), g.callers[i := Idle])
    case LoadFree(_, size) =>
      g.(callers := g.callers[i := if g.counter >= size then Subtracting(size) else Zeroing])
    case StoreFree(_) =>
      Gate(if g.callers[i].Zeroing? then 0 else WrapU64(g.counter - g.callers[i].size), g.callers[i := Idle])
  }

  predicate Possible(g: Gate, limit: i64, run: seq<Step>)
    decreases run
  {
    run == [] || (Enabled(g, run[0]) && Possible(Next(g, limit, run[0]), limit, run[1..]))
  }

  function Run(g: Gate, limit: i64, run: seq<Step>): Gate
    requires Possible(g, limit, run)
    decreases run
  {
    if run == [] then g else Run(Next(g, limit, run[0]), limit, run[1..])
  }

  // Bytes admitted and not yet added.
  function Pending(callers: seq<Caller>): nat {
    if callers == [] then 0
    else Pending(callers[1..]) + if callers[0].Admitted? then callers[0].delta else 0
  }

  // Bytes about to be subtracted.
  function Leaving(callers: seq<Caller>): nat {
    if callers == [] then 0
    else Leaving(callers[1..]) + if callers[0].Subtracting? then callers[0].size else 0
  }

  predicate NoSubtracting(callers: seq<Caller>) {
    forall c | c in callers :: !c.Subtracting?
  }

  predicate NoZeroing(callers: seq<Caller>) {
    Zeroing !in callers
  }

  // A free that will subtract runs beside none that will store zero, and all that subtract take no more
  // between them than the counter holds; a free that will store zero runs beside none that will subtract.
  predicate Covered(g: Gate, step: Step) {
    step.LoadFree? ==>
      if step.size <= g.counter then NoZeroing(g.callers) && Leaving(g.callers) + step.size <= g.counter
      else NoSubtracting(g.callers)
  }

  predicate AllCovered(g: Gate, limit: i64, run: seq<Step>)
    requires Possible(g, limit, run)
    decreases run
  {
    run != [] ==> Covered(g, run[0]) && AllCovered(Next(g, limit, run[0]), limit, run[1..])
  }

  predicate EachAtMost(run: seq<Step>, most: nat) {
    forall step | step in run && step.Check? :: step.delta <= most
  }

  predicate PendingAtMost(callers: seq<Caller>, most: nat) {
    forall c | c in callers && c.Admitted? :: c.delta <= most
  }

  // No free has been promised more than the counter holds.
  predicate Backed(g: Gate) {
    && Leaving(g.callers) <= g.counter
    && (NoZeroing(g.callers) || NoSubtracting(g.callers))
  }

  predicate Bounded(g: Gate, limit: i64, most: nat) {
    && |g.callers| > 0
    && g.counter + Pending(g.callers) <= limit + (|g.callers| - 1) * most
    && PendingAtMost(g.callers, most)
    && Backed(g)
  }

  lemma {:induction false} PendingSet(callers: seq<Caller>, i: nat, c: Caller)
    requires i < |callers|
    ensures Pending(callers[i := c])
      == Pending(callers) - (if callers[i].Admitted? then callers[i].delta else 0)
         + (if c.Admitted? then c.delta else 0)
    ensures Leaving(callers[i := c])
      == Leaving(callers) - (if callers[i].Subtracting? then callers[i].size else 0)
         + (if c.Subtracting? then c.size else 0)
  {
    if i > 0 {
      PendingSet(callers[1..], i - 1, c);
      assert callers[i := c][1..] == callers[1..][i - 1 := c];
    }
  }

  // The others can have admitted no more than `most` each.
  lemma {:induction false} OthersPending(callers: seq<Caller>, i: nat, most: nat)
    requires i < |callers| && PendingAtMost(callers, most) && callers[i].Idle?
    ensures Pending(callers) <= (|callers| - 1) * most
  {
    if i == 0 {
      PendingTotal(callers[1..], most);
    } else {
      OthersPending(callers[1..], i - 1, most);
      assert callers[0] in callers;
      assert (|callers| - 1) * most == (|callers| - 2) * most + most;
    }
  }

  lemma {:induction false} PendingTotal(callers: seq<Caller>, most: nat)
    requires PendingAtMost(callers, most)
    ensures Pending(callers) <= |callers| * most
  {
    if callers != [] {
      PendingTotal(callers[1..], most);
      assert callers[0] in callers;
      assert |callers| * most == (|callers| - 1) * most + most;
    }
  }

  lemma {:induction false} NoneLeaving(callers: seq<Caller>)
    requires NoSubtracting(callers)
    ensures Leaving(callers) == 0
  {
    if callers != [] {
      assert callers[0] in callers;
      NoneLeaving(callers[1..]);
    }
  }

  lemma BackedStep(g: Gate, limit: i64, step: Step)
    requires Backed(g) && Enabled(g, step) && Covered(g, step)
    requires g.counter + Pending(g.callers) <= U64_MAX
    ensures Backed(Next(g, limit, step))
  {
    var after := Next(g, limit, step);
    var i := step.caller;
    PendingSet(g.callers, i, after.callers[i]);
    LeavingHas(g.callers, i);
    forall c | c in after.callers ensures c in g.callers || c == after.callers[i] {
      var j :| 0 <= j < |after.callers| && after.callers[j] == c;
      assert j != i ==> c == g.callers[j];
    }
    assert g.callers[i] in g.callers;
    if NoSubtracting(g.callers) {
      NoneLeaving(g.callers);
    }
    if NoSubtracting(after.callers) {
      NoneLeaving(after.callers);
    }
  }

  // The counter and what is still to be added, against a ceiling above the limit.
  lemma CeilingStep(g: Gate, limit: i64, ceiling: nat, step: Step)
    requires Enabled(g, step) && g.counter + Pending(g.callers) <= ceiling <= I64_MAX && limit > 0
    requires g.callers[step.caller].Subtracting? ==> g.callers[step.caller].size <= g.counter
    requires step.Check? ==> limit + Pending(g.callers) <= ceiling
    requires step.Check? ==> step.delta + g.counter <= I64_MAX
    ensures Next(g, limit, step).counter + Pending(Next(g, limit, step).callers) <= ceiling
  {
    var after := Next(g, limit, step);
    PendingSet(g.callers, step.caller, after.callers[step.caller]);
    if step.Check? {
      SmallSizes(g.counter);
      SmallSizes(g.counter + step.delta);
    } else if step.Add? {
      assert g.callers[step.caller].delta <= Pending(g.callers);
    }
  }

  lemma LeavingHas(callers: seq<Caller>, i: nat)
    requires i < |callers|
    ensures callers[i].Subtracting? ==> callers[i].size <= Leaving(callers)
  {
    PendingSet(callers, i, Idle);
  }

  lemma BoundedStep(g: Gate, limit: i64, most: nat, step: Step)
    requires Bounded(g, limit, most) && Enabled(g, step) && Covered(g, step)
    requires limit > 0 && limit + |g.callers| * most <= I64_MAX
    requires step.Check? ==> step.delta <= most
    ensures Bounded(Next(g, limit, step), limit, most)
  {
    var ceiling := limit + (|g.callers| - 1) * most;
    assert limit + |g.callers| * most == ceiling + most;
    assert g.counter + Pending(g.callers) <= ceiling;
    if step.Check? {
      OthersPending(g.callers, step.caller, most);
    }
    LeavingHas(g.callers, step.caller);
    hide Pending;
    hide Leaving;
    BackedStep(g, limit, step);
    CeilingStep(g, limit, ceiling, step);
  }

  lemma {:induction false} RunBounded(g: Gate, limit: i64, most: nat, run: seq<Step>)
    requires Bounded(g, limit, most) && Possible(g, limit, run) && AllCovered(g, limit, run)
    requires limit > 0 && limit + |g.callers| * most <= I64_MAX && EachAtMost(run, most)
    ensures Bounded(Run(g, limit, run), limit, most)
    decreases run
  {
    hide Bounded;
    if run != [] {
      assert run[0] in run;
      BoundedStep(g, limit, most, run[0]);
      RunBounded(Next(g, limit, run[0]), limit, most, run[1..]);
    }
  }

  function Quiet(callers: nat): (quiet: seq<Caller>)
    ensures |quiet| == callers && forall i | 0 <= i < callers :: quiet[i] == Idle
    ensures Pending(quiet) == 0 && Leaving(quiet) == 0
  {
    if callers == 0 then [] else [Idle] + Quiet(callers - 1)
  }

  lemma StartBounded(counter: u64, k: nat, limit: i64, most: nat)
    requires k > 0 && 0 < limit && counter <= limit
    ensures Bounded(Gate(counter, Quiet(k)), limit, most)
  {
    var quiet := Quiet(k);
    forall c | c in quiet ensures c == Idle {
      var i :| 0 <= i < |quiet| && quiet[i] == c;
    }
    hide Pending;
    hide Leaving;
    hide Quiet;
    assert 0 <= (k - 1) * most;
  }

  // Main result: in every interleaving of `k` callers, whatever has been admitted but not yet added, the
  // counter stays within one delta per other caller of the limit.
  lemma OvershootBounded(counter: u64, k: nat, limit: i64, most: nat, run: seq<Step>)
    requires k > 0 && 0 < limit && counter <= limit && EachAtMost(run, most)
    requires limit + k * most <= I64_MAX || limit + (k - 1) * most >= U64_MAX
    requires Possible(Gate(counter, Quiet(k)), limit, run) && AllCovered(Gate(counter, Quiet(k)), limit, run)
    ensures Run(Gate(counter, Quiet(k)), limit, run).counter <= limit + (k - 1) * most
  {
    var start := Gate(counter, Quiet(k));
    if limit + k * most <= I64_MAX {
      StartBounded(counter, k, limit, most);
      RunBounded(start, limit, most, run);
      RunCallers(start, limit, run);
    }
  }

  lemma {:induction false} RunCallers(g: Gate, limit: i64, run: seq<Step>)
    requires Possible(g, limit, run)
    ensures |Run(g, limit, run).callers| == |g.callers|
    decreases run
  {
    if run != [] {
      RunCallers(Next(g, limit, run[0]), limit, run[1..]);
    }
  }

  // Everyone from `from` on passes the check, then everyone adds.
  function Checks(from: nat, k: nat, delta: nat): seq<Step>
    decreases k - from
  {
    if from >= k then [] else [Check(from, delta)] + Checks(from + 1, k, delta)
  }

  function Adds(from: nat, k: nat): seq<Step>
    decreases k - from
  {
    if from >= k then [] else [Add(from)] + Adds(from + 1, k)
  }

  lemma {:induction false} ChecksRun(g: Gate, limit: i64, delta: nat, from: nat, rest: seq<Step>)
    requires from <= |g.callers| && 0 < delta <= I64_MAX
    requires g.counter <= I64_MAX && Admits(g.counter, limit, delta)
    requires forall i | from <= i < |g.callers| :: g.callers[i].Idle?
    ensures var after := Gate(g.counter, g.callers[..from] + seq(|g.callers| - from, _ => Admitted(delta)));
      var run := Checks(from, |g.callers|, delta) + rest;
      && (Possible(g, limit, run) <==> Possible(after, limit, rest))
      && (Possible(after, limit, rest) ==> Run(g, limit, run) == Run(after, limit, rest))
    decreases |g.callers| - from
  {
    var k := |g.callers|;
    var run := Checks(from, k, delta) + rest;
    var after := Gate(g.counter, g.callers[..from] + seq(k - from, _ => Admitted(delta)));
    if from == k {
      assert after == g && run == rest;
    } else {
      var next := Next(g, limit, Check(from, delta));
      assert run[0] == Check(from, delta) && run[1..] == Checks(from + 1, k, delta) + rest;
      ChecksRun(next, limit, delta, from + 1, rest);
      assert after == Gate(next.counter, next.callers[..from + 1] + seq(k - from - 1, _ => Admitted(delta)));
    }
  }

  lemma {:induction false} AddsRun(g: Gate, limit: i64, from: nat, rest: seq<Step>)
    requires from <= |g.callers| && g.counter + Pending(g.callers) <= U64_MAX
    requires forall i | 0 <= i < |g.callers| :: if i < from then g.callers[i].Idle? else g.callers[i].Admitted?
    ensures var after := Gate(g.counter + Pending(g.callers), Quiet(|g.callers|));
      var run := Adds(from, |g.callers|) + rest;
      && (Possible(g, limit, run) <==> Possible(after, limit, rest))
      && (Possible(after, limit, rest) ==> Run(g, limit, run) == Run(after, limit, rest))
    decreases |g.callers| - from
  {
    hide Pending;
    hide Next;
    hide Quiet;
    hide Leaving;
    var k := |g.callers|;
    var run := Adds(from, k) + rest;
    if from < k {
      AddNext(g, limit, from);
      assert run[0] == Add(from) && run[1..] == Adds(from + 1, k) + rest;
      AddsRun(Next(g, limit, Add(from)), limit, from + 1, rest);
    } else {
      assert run == rest && g.callers == Quiet(k);
    }
  }

  lemma AddNext(g: Gate, limit: i64, i: nat)
    requires i < |g.callers| && g.callers[i].Admitted? && g.counter + Pending(g.callers) <= U64_MAX
    ensures var next := Next(g, limit, Add(i));
      && next.callers == g.callers[i := Idle]
      && next.counter + Pending(next.callers) == g.counter + Pending(g.callers)
  {
    PendingSet(g.callers, i, Idle);
  }

  lemma {:induction false} AllPending(k: nat, delta: nat)
    ensures Pending(seq(k, _ => Admitted(delta))) == k * delta
  {
    if k > 0 {
      AllPending(k - 1, delta);
      assert seq(k, _ => Admitted(delta))[1..] == seq(k - 1, _ => Admitted(delta));
    }
  }

  lemma LimitAdmits(limit: i64, most: nat)
    requires 0 < most <= limit
    ensures Admits(limit - most, limit, most)
  {
    SmallSizes(limit - most);
    SmallSizes(limit);
  }

  // From one delta below the limit every caller is admitted before any adds, and all are done at the bound.
  lemma OvershootThen(k: nat, limit: i64, most: nat, rest: seq<Step>)
    requires k > 0 && 0 < most <= limit && limit + (k - 1) * most <= U64_MAX
    ensures var start, full := Gate(limit - most, Quiet(k)), Gate(limit + (k - 1) * most, Quiet(k));
      var run := Checks(0, k, most) + (Adds(0, k) + rest);
      && (Possible(start, limit, run) <==> Possible(full, limit, rest))
      && (Possible(full, limit, rest) ==> Run(start, limit, run) == Run(full, limit, rest))
  {
    hide *;
    var start := Gate(limit - most, Quiet(k));
    var full := seq(k, _ => Admitted(most));
    assert (k - 1) * most == k * most - most;
    AllPending(k, most);
    LimitAdmits(limit, most);
    ChecksRun(start, limit, most, 0, Adds(0, k) + rest);
    assert start.callers[..0] + full == full;
    AddsRun(Gate(limit - most, full), limit, 0, rest);
  }

  // The bound is attained: the last byte that fits is admitted to every caller before any of them adds it.
  lemma OvershootAttained(k: nat, limit: i64, most: nat)
    requires k > 0 && 0 < most <= limit && limit + (k - 1) * most <= U64_MAX
    ensures var start := Gate(limit - most, Quiet(k));
      var run := Checks(0, k, most) + Adds(0, k);
      Possible(start, limit, run) && Run(start, limit, run).counter == limit + (k - 1) * most
  {
    OvershootThen(k, limit, most, []);
    assert Adds(0, k) + [] == Adds(0, k);
  }

  // One more delta from there, past what a signed 64-bit number holds, and small enough for the counter.
  function LastDelta(k: nat, limit: i64, most: nat): int
    requires k > 0
  {
    if limit + k * most <= U64_MAX then most else U64_MAX - (limit + (k - 1) * most)
  }

  function PastBound(k: nat, limit: i64, most: nat): seq<Step>
    requires k > 0 && LastDelta(k, limit, most) >= 0
  {
    Checks(0, k, most) + (Adds(0, k) + [Check(0, LastDelta(k, limit, most)), Add(0)])
  }

  // So outside that range the bound breaks.
  lemma PastBoundRuns(k: nat, limit: i64, most: nat)
    requires k > 0 && 0 < most <= limit && limit + k * most > I64_MAX && limit + (k - 1) * most < U64_MAX
    ensures LastDelta(k, limit, most) > 0
    ensures var start, run := Gate(limit - most, Quiet(k)), PastBound(k, limit, most);
      && EachAtMost(run, most) && Possible(start, limit, run) && AllCovered(start, limit, run)
      && Run(start, limit, run).counter > limit + (k - 1) * most
  {
    var full, last := Gate(limit + (k - 1) * most, Quiet(k)), LastDelta(k, limit, most);
    var rest, run := [Check(0, last), Add(0)], PastBound(k, limit, most);
    LastSteps(full, limit, last);
    OvershootThen(k, limit, most, rest);
    NoFreesIn(k, most, last);
    hide LastDelta;
    hide Run;
    NoLoadCovered(Gate(limit - most, Quiet(k)), limit, run);
  }

  lemma LastSteps(g: Gate, limit: i64, last: nat)
    requires g.callers != [] && g.callers[0].Idle? && 0 < last <= I64_MAX && g.counter + last <= U64_MAX
    requires Admits(g.counter, limit, last)
    ensures Possible(g, limit, [Check(0, last), Add(0)])
    ensures Run(g, limit, [Check(0, last), Add(0)]).counter == g.counter + last
  {
    hide Admits;
    var next := Next(g, limit, Check(0, last));
    assert [Check(0, last), Add(0)] == [Check(0, last)] + [Add(0)];
    RunOne(next, limit, Add(0));
    RunFirst(g, limit, Check(0, last), [Add(0)]);
  }

  lemma NoFreesIn(k: nat, most: nat, last: nat)
    requires last <= most
    ensures var run := Checks(0, k, most) + (Adds(0, k) + [Check(0, last), Add(0)]);
      forall step | step in run :: !step.LoadFree? && (step.Check? ==> step.delta <= most)
  {
    ChecksOnly(0, k, most);
    AddsOnly(0, k);
  }

  lemma {:induction false} ChecksOnly(from: nat, k: nat, delta: nat)
    ensures forall step | step in Checks(from, k, delta) :: step.Check? && step.delta == delta
    decreases k - from
  {
    if from < k {
      ChecksOnly(from + 1, k, delta);
    }
  }

  lemma {:induction false} AddsOnly(from: nat, k: nat)
    ensures forall step | step in Adds(from, k) :: step.Add?
    decreases k - from
  {
    if from < k {
      AddsOnly(from + 1, k);
    }
  }

  lemma {:induction false} NoLoadCovered(g: Gate, limit: i64, run: seq<Step>)
    requires Possible(g, limit, run) && forall step | step in run :: !step.LoadFree?
    ensures AllCovered(g, limit, run)
    decreases run
  {
    if run != [] {
      assert run[0] in run;
      NoLoadCovered(Next(g, limit, run[0]), limit, run[1..]);
    }
  }

  // The bound holds in every run of covered frees that starts within the limit.
  ghost predicate NeverPast(k: nat, limit: i64, most: nat)
    requires k > 0
  {
    forall counter: u64, run | counter <= limit && EachAtMost(run, most)
        && Possible(Gate(counter, Quiet(k)), limit, run) && AllCovered(Gate(counter, Quiet(k)), limit, run) ::
      Run(Gate(counter, Quiet(k)), limit, run).counter <= limit + (k - 1) * most
  }

  // Main result: for deltas up to the limit the bound holds in every run if and only if one delta more than
  // the bound still fits a signed 64-bit number, or the bound is past what the counter can hold at all.
  lemma OvershootExactly(k: nat, limit: i64, most: nat)
    requires k > 0 && 0 < most <= limit
    ensures NeverPast(k, limit, most)
      <==> limit + k * most <= I64_MAX || limit + (k - 1) * most >= U64_MAX
  {
    if limit + k * most <= I64_MAX || limit + (k - 1) * most >= U64_MAX {
      forall counter: u64, run | counter <= limit && EachAtMost(run, most)
        && Possible(Gate(counter, Quiet(k)), limit, run) && AllCovered(Gate(counter, Quiet(k)), limit, run)
        ensures Run(Gate(counter, Quiet(k)), limit, run).counter <= limit + (k - 1) * most
      {
        OvershootBounded(counter, k, limit, most, run);
      }
    } else {
      PastBoundRuns(k, limit, most);
    }
  }

  predicate Deltas(callers: seq<Caller>) {
    forall c | c in callers && c.Subtracting? :: 0 < c.size <= I64_MAX + 1
  }

  lemma {:induction false} SomeLeaving(callers: seq<Caller>) returns (i: nat)
    requires Leaving(callers) > 0
    ensures i < |callers| && callers[i].Subtracting?
  {
    if callers[0].Subtracting? {
      i := 0;
    } else {
      i := SomeLeaving(callers[1..]);
      i := i + 1;
    }
  }

  // Frees promised more than the counter holds wrap it once they are all carried out.
  lemma {:induction false} OverdrawnWraps(g: Gate, limit: i64) returns (run: seq<Step>)
    requires Leaving(g.callers) > g.counter && Deltas(g.callers) && g.counter <= I64_MAX
    ensures OnlyStores(run) && Possible(g, limit, run) && Run(g, limit, run).counter > I64_MAX
    decreases Leaving(g.callers)
  {
    var i := SomeLeaving(g.callers);
    var size := g.callers[i].size;
    assert g.callers[i] in g.callers;
    var next := Next(g, limit, StoreFree(i));
    PendingSet(g.callers, i, Idle);
    if size > g.counter {
      assert next.counter == g.counter - size + U64_MAX + 1;
      run := [StoreFree(i)];
      RunOne(g, limit, StoreFree(i));
    } else {
      assert next.counter == g.counter - size;
      SetDeltas(g.callers, i, Idle);
      var rest := OverdrawnWraps(next, limit);
      run := [StoreFree(i)] + rest;
      RunFirst(g, limit, StoreFree(i), rest);
    }
  }

  // Cover is needed: a free that starts without it has a continuation, of stores alone, that wraps the
  // counter, past the bound for any number of callers.
  lemma UncoveredWraps(g: Gate, limit: i64, step: Step) returns (run: seq<Step>)
    requires Enabled(g, step) && !Covered(g, step) && Deltas(g.callers) && g.counter <= I64_MAX
    ensures OnlyStores(run)
    ensures Possible(Next(g, limit, step), limit, run) && Run(Next(g, limit, step), limit, run).counter > I64_MAX
  {
    var next, i := Next(g, limit, step), step.caller;
    PendingSet(g.callers, i, next.callers[i]);
    SetDeltas(g.callers, i, next.callers[i]);
    if step.size <= g.counter && NoZeroing(g.callers) {
      run := OverdrawnWraps(next, limit);
    } else if step.size <= g.counter {
      var j :| 0 <= j < |g.callers| && g.callers[j] == Zeroing;
      LeavingHas(next.callers, i);
      run := ZeroThenWrap(next, limit, j);
    } else {
      var c :| c in g.callers && c.Subtracting?;
      var j :| 0 <= j < |g.callers| && g.callers[j] == c;
      LeavingHas(g.callers, j);
      run := ZeroThenWrap(next, limit, i);
    }
  }

  // A zero stored while others are still to subtract leaves them nothing to take.
  lemma ZeroThenWrap(g: Gate, limit: i64, i: nat) returns (run: seq<Step>)
    requires i < |g.callers| && g.callers[i].Zeroing? && Leaving(g.callers) > 0 && Deltas(g.callers)
    ensures OnlyStores(run) && Possible(g, limit, run) && Run(g, limit, run).counter > I64_MAX
  {
    PendingSet(g.callers, i, Idle);
    SetDeltas(g.callers, i, Idle);
    var rest := OverdrawnWraps(Next(g, limit, StoreFree(i)), limit);
    run := [StoreFree(i)] + rest;
    RunFirst(g, limit, StoreFree(i), rest);
  }

  lemma SetDeltas(callers: seq<Caller>, i: nat, c: Caller)
    requires i < |callers| && Deltas(callers) && (c.Subtracting? ==> 0 < c.size <= I64_MAX + 1)
    ensures Deltas(callers[i := c])
  {
    var after := callers[i := c];
    forall d | d in after && d.Subtracting? ensures 0 < d.size <= I64_MAX + 1 {
      var j :| 0 <= j < |after| && after[j] == d;
      assert j != i ==> d == callers[j] && callers[j] in callers;
    }
  }

  predicate OnlyStores(run: seq<Step>) {
    forall step | step in run :: step.StoreFree?
  }

  lemma {:induction false} StoresCovered(g: Gate, limit: i64, run: seq<Step>)
    requires Possible(g, limit, run) && OnlyStores(run)
    ensures AllCovered(g, limit, run)
    decreases run
  {
    if run != [] {
      assert run[0] in run;
      StoresCovered(Next(g, limit, run[0]), limit, run[1..]);
    }
  }

  // Everything that can still happen, with every further free covered, keeps within the bound.
  ghost predicate StaysBounded(g: Gate, limit: i64, most: nat) {
    forall run | Possible(g, limit, run) && AllCovered(g, limit, run) && EachAtMost(run, most) ::
      Run(g, limit, run).counter <= limit + (|g.callers| - 1) * most
  }

  // Main result: a free may start exactly when it is covered; otherwise the bound can be broken.
  lemma CoverExact(g: Gate, limit: i64, most: nat, step: Step)
    requires Bounded(g, limit, most) && Deltas(g.callers) && Enabled(g, step) && step.LoadFree?
    requires limit > 0 && limit + |g.callers| * most <= I64_MAX
    ensures StaysBounded(Next(g, limit, step), limit, most) <==> Covered(g, step)
  {
    var next := Next(g, limit, step);
    assert (|g.callers| - 1) * most + most == |g.callers| * most;
    if Covered(g, step) {
      BoundedStep(g, limit, most, step);
      forall run | Possible(next, limit, run) && AllCovered(next, limit, run) && EachAtMost(run, most)
        ensures Run(next, limit, run).counter <= limit + (|g.callers| - 1) * most
      {
        RunBounded(next, limit, most, run);
        RunCallers(next, limit, run);
      }
    } else {
      var run := UncoveredWraps(g, limit, step);
      StoresCovered(next, limit, run);
      assert EachAtMost(run, most);
    }
  }

  lemma {:induction false} RunDeltas(g: Gate, limit: i64, run: seq<Step>)
    requires Possible(g, limit, run) && Deltas(g.callers)
    ensures Deltas(Run(g, limit, run).callers)
    decreases run
  {
    if run != [] {
      var i, next := run[0].caller, Next(g, limit, run[0]);
      assert g.callers[i] in g.callers && g.callers[i := g.callers[i]] == g.callers;
      SetDeltas(g.callers, i, next.callers[i]);
      RunDeltas(next, limit, run[1..]);
    }
  }

  // And so in every state that covered frees can reach.
  lemma CoverExactEverywhere(counter: u64, k: nat, limit: i64, most: nat, run: seq<Step>, step: Step)
    requires k > 0 && 0 < limit && counter <= limit && limit + k * most <= I64_MAX && EachAtMost(run, most)
    requires Possible(Gate(counter, Quiet(k)), limit, run) && AllCovered(Gate(counter, Quiet(k)), limit, run)
    requires step.LoadFree? && Enabled(Run(Gate(counter, Quiet(k)), limit, run), step)
    ensures var g := Run(Gate(counter, Quiet(k)), limit, run);
      StaysBounded(Next(g, limit, step), limit, most) <==> Covered(g, step)
  {
    var start := Gate(counter, Quiet(k));
    StartBounded(counter, k, limit, most);
    RunBounded(start, limit, most, run);
    RunCallers(start, limit, run);
    RunDeltas(start, limit, run);
    CoverExact(Run(start, limit, run), limit, most, step);
  }

  // Every free stores at once after it loads.
  predicate FreesAtOnce(run: seq<Step>) {
    forall i | 0 <= i < |run| - 1 && run[i].LoadFree? :: run[i + 1] == StoreFree(run[i].caller)
  }

  // So where loading and storing are one step, as the saturating subtraction would be, all frees are covered.
  lemma {:induction false} AtOnceCovered(g: Gate, limit: i64, run: seq<Step>)
    requires Possible(g, limit, run) && FreesAtOnce(run) && NoZeroing(g.callers) && NoSubtracting(g.callers)
    ensures AllCovered(g, limit, run)
    decreases |run|
  {
    if run != [] {
      var step, next := run[0], Next(g, limit, run[0]);
      NoneLeaving(g.callers);
      if step.LoadFree? && |run| > 1 {
        assert run[1..][0] == StoreFree(step.caller);
        var after := Next(next, limit, run[1..][0]);
        assert after.callers == g.callers[step.caller := Idle];
        AtOnceCovered(after, limit, run[1..][1..]);
      } else if !step.LoadFree? {
        assert g.callers[step.caller] in g.callers;
        AtOnceCovered(next, limit, run[1..]);
      }
    }
  }

  // And the bound needs no further condition.
  lemma AtOnceBounded(counter: u64, k: nat, limit: i64, most: nat, run: seq<Step>)
    requires k > 0 && 0 < limit && counter <= limit
    requires limit + k * most <= I64_MAX || limit + (k - 1) * most >= U64_MAX
    requires EachAtMost(run, most) && FreesAtOnce(run) && Possible(Gate(counter, Quiet(k)), limit, run)
    ensures Run(Gate(counter, Quiet(k)), limit, run).counter <= limit + (k - 1) * most
  {
    var quiet := Quiet(k);
    forall c | c in quiet ensures c == Idle {
      var i :| 0 <= i < |quiet| && quiet[i] == c;
    }
    AtOnceCovered(Gate(counter, quiet), limit, run);
    OvershootBounded(counter, k, limit, most, run);
  }

  // It takes only two callers: frees that together take more than is there, each seeing enough.
  lemma OverlappingFreesWrap(counter: u64, a: nat, b: nat, limit: i64) returns (run: seq<Step>)
    requires 0 < a <= counter && 0 < b <= counter && a + b > counter && counter <= I64_MAX
    ensures var start := Gate(counter, Quiet(2));
      var all := [LoadFree(0, a)] + ([LoadFree(1, b)] + run);
      Possible(start, limit, all) && Run(start, limit, all).counter > I64_MAX >= limit
  {
    var start := Gate(counter, Quiet(2));
    var one := Next(start, limit, LoadFree(0, a));
    PendingSet(start.callers, 0, Subtracting(a));
    assert one.callers == [Subtracting(a), Idle];
    run := UncoveredWraps(one, limit, LoadFree(1, b));
    RunFirst(one, limit, LoadFree(1, b), run);
    RunFirst(start, limit, LoadFree(0, a), [LoadFree(1, b)] + run);
  }

  lemma RunFirst(g: Gate, limit: i64, step: Step, rest: seq<Step>)
    requires Enabled(g, step)
    ensures Possible(g, limit, [step] + rest) <==> Possible(Next(g, limit, step), limit, rest)
    ensures Possible(Next(g, limit, step), limit, rest) ==>
      Run(g, limit, [step] + rest) == Run(Next(g, limit, step), limit, rest)
  {
    assert ([step] + rest)[1..] == rest;
  }

  lemma RunOne(g: Gate, limit: i64, step: Step)
    requires Enabled(g, step)
    ensures Possible(g, limit, [step]) && Run(g, limit, [step]) == Next(g, limit, step)
  {
    assert [step][1..] == [];
  }

  // What one caller does when nobody comes between its two steps.
  function Alone(delta: i64, admitted: bool): seq<Step> {
    if delta == 0 then []
    else if delta < 0 then [LoadFree(0, -(delta as int)), StoreFree(0)]
    else if admitted then [Check(0, delta), Add(0)]
    else [Check(0, delta)]
  }

  // Uninterrupted, the steps are the sequential gate.
  lemma AloneIsAllocate(disk: Disk, path: seq<PathMaps.Name>, delta: i64)
    ensures var run := Alone(delta, Admits(disk.cached, disk.limit, delta));
      var start := Gate(disk.cached, [Idle]);
      && Possible(start, disk.limit, run)
      && Run(start, disk.limit, run) == Gate(AllocateRaw(disk, path, delta).cached, [Idle])
  {
    var run := Alone(delta, Admits(disk.cached, disk.limit, delta));
    var start := Gate(disk.cached, [Idle]);
    if delta != 0 {
      var next := Next(start, disk.limit, run[0]);
      hide Updated;
      hide Admits;
      hide WrapU64;
      if |run| == 2 {
        assert run[1..] == [run[1]];
        RunOne(next, disk.limit, run[1]);
      } else {
        RunOne(start, disk.limit, run[0]);
      }
    }
  }
}
