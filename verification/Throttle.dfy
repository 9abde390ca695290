/** The console throttle: a line counter with a time window that is looked at only once the counter is full. */
module Throttle {
  const NANOS_PER_SEC: nat := 1_000_000_000

  // `interval` counts seconds; every instant below counts nanoseconds on the monotone clock.
  datatype Config = Config(enabled: bool, lines: nat, interval: nat)

  function Window(config: Config): nat {
    config.interval * NANOS_PER_SEC
  }

  // `passed`, `warned` and `resets` count what has happened since the console was attached.
  datatype Limiter = Limiter(counter: nat, start: nat, passed: nat, warned: nat, resets: nat)

  // One line: the clock as the window is checked, and as it is restarted.
  datatype Line = Line(now: nat, later: nat)

  datatype Verdict = Verdict(allowed: bool, warns: bool)

  function Judged(config: Config, l: Limiter, line: Line): (Limiter, Verdict) {
    var counter := l.counter + 1;
    if !config.enabled || config.interval == 0 || counter < config.lines then
      (l.(counter := counter, passed := l.passed + 1), Verdict(true, false))
    else if line.now - l.start < Window(config) then
      if counter == config.lines then
        (l.(counter := counter, warned := l.warned + 1), Verdict(false, true))
      else
        (l.(counter := counter), Verdict(false, false))
    else
      (l.(counter := 0, start := line.later, passed := l.passed + 1, resets := l.resets + 1), Verdict(true, false))
  }

  class RateLimiter {
    const config: Config
    var counter: nat
    var start: nat
    ghost var passed: nat
    ghost var warned: nat
    ghost var resets: nat

    ghost function State(): Limiter
      reads this
    {
      Limiter(counter, start, passed, warned, resets)
    }

    constructor (config: Config, now: nat)
      ensures this.config == config && State() == Fresh(now)
    {
      this.config := config;
      counter, start, passed, warned, resets := 0, now, 0, 0, 0;
    }

    method AllowRatelimit(now: nat, later: nat) returns (allowed: bool, warns: bool)
      modifies this
      ensures (State(), Verdict(allowed, warns)) == Judged(config, old(State()), Line(now, later))
    {
      counter := counter + 1;
      warns := false;
      if config.enabled && config.interval > 0 && counter >= config.lines {
        if now - start < Window(config) {
          if counter == config.lines {
            warns := true;
            warned := warned + 1;
          }
          return false, warns;
        } else {
          counter := 0;
          start := later;
          resets := resets + 1;
        }
      }
      passed := passed + 1;
      allowed := true;
    }
  }

  function Fresh(now: nat): Limiter {
    Limiter(0, now, 0, 0, 0)
  }

  function Run(config: Config, l: Limiter, lines: seq<Line>): Limiter {
    if lines == [] then l else Judged(config, Run(config, l, lines[..|lines| - 1]), lines[|lines| - 1]).0
  }

  // The clock never goes back, within a line or between two.
  predicate Monotone(begin: nat, lines: seq<Line>) {
    lines == []
    || (var init, last := lines[..|lines| - 1], lines[|lines| - 1];
        Monotone(begin, init) && Clock(begin, init) <= last.now <= last.later)
  }

  function Clock(begin: nat, lines: seq<Line>): nat {
    if lines == [] then begin else lines[|lines| - 1].later
  }

  predicate Limits(config: Config) {
    config.enabled && config.lines >= 1 && config.interval >= 1
  }

  function Min(a: int, b: int): int {
    if a <= b then a else b
  }

  // Every window but the first lets through exactly `lines` lines, the first one fewer; windows last; and
  // each warns at most once.
  predicate Counted(config: Config, begin: nat, clock: nat, l: Limiter) {
    && l.passed == l.resets * config.lines + Min(l.counter, config.lines - 1)
    && l.warned <= l.resets + (if l.counter >= config.lines then 1 else 0)
    && begin + l.resets * Window(config) <= l.start <= clock
  }

  lemma LineCounted(config: Config, begin: nat, clock: nat, l: Limiter, line: Line)
    requires Limits(config) && Counted(config, begin, clock, l) && clock <= line.now <= line.later
    ensures Counted(config, begin, line.later, Judged(config, l, line).0)
  {
    hide Window;
  }

  lemma {:induction false} RunCounted(config: Config, begin: nat, lines: seq<Line>)
    requires Limits(config) && Monotone(begin, lines)
    ensures Counted(config, begin, Clock(begin, lines), Run(config, Fresh(begin), lines))
  {
    hide Counted;
    hide Judged;
    if lines == [] {
      FreshCounted(config, begin);
    } else {
      var init := lines[..|lines| - 1];
      RunCounted(config, begin, init);
      LineCounted(config, begin, Clock(begin, init), Run(config, Fresh(begin), init), lines[|lines| - 1]);
    }
  }

  lemma FreshCounted(config: Config, begin: nat)
    ensures Limits(config) ==> Counted(config, begin, begin, Fresh(begin))
  {
  }

  // Main result: after time `t` at most lines * (floor(t / interval) + 1) - 1 lines have passed, and no
  // window has warned twice.
  lemma ThroughputBounded(config: Config, begin: nat, lines: seq<Line>)
    requires Limits(config) && Monotone(begin, lines)
    ensures var t := Clock(begin, lines) - begin;
      var l := Run(config, Fresh(begin), lines);
      && l.passed <= config.lines * (t / Window(config) + 1) - 1
      && l.resets <= t / Window(config)
      && l.warned <= l.resets + 1
  {
    RunCounted(config, begin, lines);
    var t := Clock(begin, lines) - begin;
    var l := Run(config, Fresh(begin), lines);
    var windows := t / Window(config);
    hide Run;
    hide Monotone;
    AtMostQuotient(l.resets, Window(config), t);
    Products(config.lines, l.resets, windows);
  }

  lemma AtMostQuotient(k: nat, w: nat, t: nat)
    requires w > 0 && k * w <= t
    ensures k <= t / w
  {
    if k > t / w {
      Products(w, t / w + 1, k);
    }
  }

  lemma Products(a: nat, b: nat, c: nat)
    requires b <= c
    ensures a * b <= a * c && b * a == a * b && a * (c + 1) == a * c + a
  {
    assert a * c == a * b + a * (c - b);
  }

  // Any line that is refused comes less than the interval after the last restart, with that window's full
  // share already let through; nothing is refused when the throttle is off.
  lemma RefusedOnlyWhenFull(config: Config, begin: nat, clock: nat, l: Limiter, line: Line)
    requires Limits(config) ==> Counted(config, begin, clock, l)
    requires config.lines >= 1
    ensures !Judged(config, l, line).1.allowed <==>
      Limits(config) && l.counter >= config.lines - 1 && line.now - l.start < Window(config)
    ensures !Judged(config, l, line).1.allowed ==> l.passed == l.resets * config.lines + config.lines - 1
  {
  }

  // What a run of lines is answered with.
  function Verdicts(config: Config, l: Limiter, lines: seq<Line>): seq<Verdict> {
    if lines == [] then []
    else
      var init := lines[..|lines| - 1];
      Verdicts(config, l, init) + [Judged(config, Run(config, l, init), lines[|lines| - 1]).1]
  }

  lemma {:induction false} FullWhenRefused(config: Config, begin: nat, lines: seq<Line>)
    requires Limits(config)
    ensures |Verdicts(config, Fresh(begin), lines)| == |lines|
    ensures Run(config, Fresh(begin), lines).counter >= config.lines
      <==> lines != [] && !Verdicts(config, Fresh(begin), lines)[|lines| - 1].allowed
    decreases |lines|
  {
    if lines != [] {
      FullWhenRefused(config, begin, lines[..|lines| - 1]);
    }
  }

  // Main result: a line brings the warning exactly if it is refused and the line before it was not; so there is
  // one for every stretch of refused lines, with its first.
  lemma {:induction false} WarnedFirst(config: Config, begin: nat, lines: seq<Line>, i: nat)
    requires Limits(config) && i < |lines|
    ensures |Verdicts(config, Fresh(begin), lines)| == |lines|
    ensures var verdicts := Verdicts(config, Fresh(begin), lines);
      verdicts[i].warns <==> !verdicts[i].allowed && (i == 0 || verdicts[i - 1].allowed)
    decreases |lines|
  {
    var init := lines[..|lines| - 1];
    FullWhenRefused(config, begin, lines);
    FullWhenRefused(config, begin, init);
    if i < |init| {
      WarnedFirst(config, begin, init, i);
    }
  }

  // A share less one of lines passes whenever they come, if the counter starts at zero.
  lemma {:induction false} SharePasses(config: Config, l: Limiter, lines: seq<Line>)
    requires l.counter == 0 && (lines == [] || |lines| < config.lines)
    ensures Run(config, l, lines) == l.(counter := |lines|, passed := l.passed + |lines|)
    decreases |lines|
  {
    if lines != [] {
      SharePasses(config, l, lines[..|lines| - 1]);
    }
  }

  // The share, less the line that fills it.
  function OneLess(config: Config): nat {
    if config.lines == 0 then 0 else config.lines - 1
  }

  // Main result: after a line that restarts the window, or at the start, one line less than the share passes,
  // whenever those come; the next passes exactly if the interval has run out since the restart's second look
  // at the clock.
  lemma ShareThenWindow(config: Config, l: Limiter, opening: Line, lines: seq<Line>, following: Line)
    requires config.enabled && config.interval >= 1 && |lines| == OneLess(config)
    requires Judged(config, l, opening).0.resets > l.resets
    ensures var begun := Judged(config, l, opening).0;
      var full := Run(config, begun, lines);
      && full.passed == begun.passed + |lines|
      && (Judged(config, full, following).1.allowed
          <==> following.now - opening.later >= config.interval * 1_000_000_000)
  {
    SharePasses(config, Judged(config, l, opening).0, lines);
  }

  lemma ShareThenWindowFresh(config: Config, begin: nat, lines: seq<Line>, following: Line)
    requires config.enabled && config.interval >= 1 && |lines| == OneLess(config)
    ensures var full := Run(config, Fresh(begin), lines);
      && full.passed == |lines|
      && (Judged(config, full, following).1.allowed <==> following.now - begin >= config.interval * 1_000_000_000)
  {
    SharePasses(config, Fresh(begin), lines);
  }

  // Without the throttle no line is refused and none restarts the window; with a share of no lines at all, none
  // warns.
  lemma OffPasses(config: Config, l: Limiter, line: Line)
    ensures config.lines == 0 ==> !Judged(config, l, line).1.warns
    ensures !config.enabled || config.interval == 0 ==>
      var (after, verdict) := Judged(config, l, line);
      verdict == Verdict(true, false) && after.passed == l.passed + 1 && after.resets == l.resets
  {
  }

  // `n` lines at one instant.
  function Burst(n: nat, at: nat): seq<Line> {
    if n == 0 then [] else Burst(n - 1, at) + [Line(at, at)]
  }

  // A full burst at the start and at every multiple of the interval.
  function Bursts(config: Config, begin: nat, windows: nat): seq<Line>
    requires Limits(config)
  {
    if windows == 0 then Burst(config.lines - 1, begin)
    else Bursts(config, begin, windows - 1) + Burst(config.lines, begin + windows * Window(config))
  }

  lemma {:induction false} RunAppend(config: Config, l: Limiter, begin: nat, a: seq<Line>, b: seq<Line>)
    ensures Run(config, l, a + b) == Run(config, Run(config, l, a), b)
    ensures Monotone(begin, a + b) <==> Monotone(begin, a) && Monotone(Clock(begin, a), b)
    ensures Clock(begin, a + b) == Clock(Clock(begin, a), b)
    decreases |b|
  {
    if b == [] {
      assert a + b == a;
    } else {
      assert (a + b)[..|a + b| - 1] == a + b[..|b| - 1];
      hide Judged;
      RunAppend(config, l, begin, a, b[..|b| - 1]);
    }
  }

  lemma {:induction false} BurstPasses(config: Config, l: Limiter, n: nat, at: nat, clock: nat)
    requires Limits(config) && l.counter + n <= config.lines - 1 && clock <= at
    ensures Run(config, l, Burst(n, at)) == l.(counter := l.counter + n, passed := l.passed + n)
    ensures Monotone(clock, Burst(n, at)) && Clock(clock, Burst(n, at)) == if n == 0 then clock else at
  {
    if n > 0 {
      assert Burst(n, at)[..n - 1] == Burst(n - 1, at) by {
        BurstLength(n, at);
        BurstLength(n - 1, at);
      }
      BurstLength(n, at);
      BurstPasses(config, l, n - 1, at, clock);
    }
  }

  lemma {:induction false} BurstLength(n: nat, at: nat)
    ensures |Burst(n, at)| == n && forall i | 0 <= i < n :: Burst(n, at)[i] == Line(at, at)
  {
    if n > 0 {
      BurstLength(n - 1, at);
    }
  }

  // A full counter whose window has run out takes one more burst entirely.
  lemma WindowPasses(config: Config, l: Limiter, at: nat, clock: nat)
    requires Limits(config) && l.counter == config.lines - 1 && at >= l.start + Window(config) && clock <= at
    ensures Run(config, l, Burst(config.lines, at))
      == Limiter(config.lines - 1, at, l.passed + config.lines, l.warned, l.resets + 1)
    ensures Monotone(clock, Burst(config.lines, at)) && Clock(clock, Burst(config.lines, at)) == at
  {
    var n, one := config.lines - 1, [Line(at, at)];
    BurstLength(config.lines, at);
    BurstLength(n, at);
    assert Burst(config.lines, at) == one + Burst(n, at);
    RunAppend(config, l, clock, one, Burst(n, at));
    assert one[..0] == [];
    assert Run(config, l, one) == Limiter(0, at, l.passed + 1, l.warned, l.resets + 1);
    assert Monotone(clock, one) && Clock(clock, one) == at;
    BurstPasses(config, Run(config, l, one), n, at, at);
  }

  // The bound is attained: bursts at every multiple of the interval pass entirely.
  lemma {:induction false} ThroughputAttained(config: Config, begin: nat, windows: nat)
    requires Limits(config)
    ensures var lines, t := Bursts(config, begin, windows), windows * Window(config);
      var l := Run(config, Fresh(begin), lines);
      && Monotone(begin, lines) && Clock(begin, lines) <= begin + t
      && l.counter == config.lines - 1 && l.start == begin + t
      && l.passed == config.lines * (windows + 1) - 1
  {
    hide Run;
    hide Monotone;
    hide Clock;
    if windows == 0 {
      BurstPasses(config, Fresh(begin), config.lines - 1, begin, begin);
    } else {
      var before := Bursts(config, begin, windows - 1);
      var at := begin + windows * Window(config);
      var l := Run(config, Fresh(begin), before);
      ThroughputAttained(config, begin, windows - 1);
      Products(Window(config), windows - 1, windows - 1);
      Products(config.lines, windows, windows);
      RunAppend(config, Fresh(begin), begin, before, Burst(config.lines, at));
      assert at == begin + (windows - 1) * Window(config) + Window(config);
      hide Window;
      WindowPasses(config, l, at, Clock(begin, before));
    }
  }
}
