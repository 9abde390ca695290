/** The polled writer: an allocation may stay in flight over any number of polls. */
module AsyncWriter {
  import opened Basics
  import opened DiskIndex
  import opened Filesystems
  import opened Writers

  // What polling the allocation in flight answers, and what polling the file underneath answers.
  datatype Allocation = Granted | Refused | Waiting

  datatype Polled = Ready(inner: Inner) | Blocked

  datatype Poll = Pending | Finished(outcome: Outcome)

  // `offered`, `paid`, `refused` and `accepted` count bytes since the writer was opened: added up by a
  // write, granted, turned down, and taken by the file underneath.
  datatype Polling = Polling(accumulated: i64, inFlight: Option<nat>,
                             offered: nat, paid: nat, refused: nat, accepted: nat)

  datatype Event =
    | PollWrite(size: nat, first: Allocation, second: Allocation, file: Polled)
    | PollFlush(first: Allocation, second: Allocation, file: Polled)
    | PollShutdown(first: Allocation, second: Allocation, file: Polled)
    | StartSeek(inner: Inner)
    | PollComplete(first: Allocation, file: Polled)

  // The file takes no more than it is given, and a buffer leaves room for what may be gathered before it.
  predicate SanePoll(event: Event) {
    event.PollWrite? ==>
      && event.size <= I64_MAX - (ALLOCATION_THRESHOLD - 1)
      && (event.file.Ready? && event.file.inner.Took? ==> event.file.inner.count <= event.size)
  }

  function AnswerPoll(file: Polled): Poll {
    if file.Blocked? then Pending else Finished(Answer(file.inner))
  }

  function Started(p: Polling): Polling {
    if p.accumulated > 0 && p.inFlight.None? then p.(inFlight := Some(p.accumulated), accumulated := 0) else p
  }

  // Some(answer) ends the caller's poll.
  ghost function Awaited(p: Polling, answer: Allocation): (Polling, Option<Poll>) {
    if p.inFlight.None? then (p, None)
    else match answer
      case Granted => (p.(inFlight := None, paid := p.paid + p.inFlight.value), None)
      case Refused =>
        (p.(inFlight := None, refused := p.refused + p.inFlight.value), Some(Finished(StorageFull)))
      case Waiting => (p, Some(Pending))
  }

  ghost function Wrote(p: Polling, size: nat, first: Allocation, second: Allocation, file: Polled): (Polling, Poll) {
    var (ready, stop) := Awaited(p, first);
    if stop.Some? then (ready, stop.value)
    else
      var grown := ready.(accumulated := WrapI64(ready.accumulated + size), offered := ready.offered + size);
      var (settled, halt) :=
        if grown.accumulated >= ALLOCATION_THRESHOLD then Awaited(Started(grown), second) else (grown, None);
      if halt.Some? then (settled, halt.value)
      else (if file.Ready? && file.inner.Took? then settled.(accepted := settled.accepted + file.inner.count)
            else settled, AnswerPoll(file))
  }

  // Flush and shutdown: everything gathered is charged before the file is asked.
  ghost function Flushed(p: Polling, first: Allocation, second: Allocation, file: Polled): (Polling, Poll) {
    var (ready, stop) := Awaited(p, first);
    if stop.Some? then (ready, stop.value)
    else
      var (settled, halt) := if ready.accumulated > 0 then Awaited(Started(ready), second) else (ready, None);
      (settled, if halt.Some? then halt.value else AnswerPoll(file))
  }

  ghost function Completed(p: Polling, first: Allocation, file: Polled): (Polling, Poll) {
    var (ready, stop) := Awaited(p, first);
    (ready, if stop.Some? then stop.value else AnswerPoll(file))
  }

  ghost function Handled(p: Polling, event: Event): (Polling, Poll) {
    match event
    case PollWrite(size, first, second, file) => Wrote(p, size, first, second, file)
    case PollFlush(first, second, file) => Flushed(p, first, second, file)
    case PollShutdown(first, second, file) => Flushed(p, first, second, file)
    case StartSeek(inner) => (Started(p), Finished(Answer(inner)))
    case PollComplete(first, file) => Completed(p, first, file)
  }

  class AsyncFileSystemWriter {
    var accumulatedBytes: i64
    var allocationInProgress: Option<nat>
    ghost var offered: nat
    ghost var paid: nat
    ghost var refused: nat
    ghost var accepted: nat

    ghost function State(): Polling
      reads this
    {
      Polling(accumulatedBytes, allocationInProgress, offered, paid, refused, accepted)
    }

    constructor ()
      ensures State() == Created()
    {
      accumulatedBytes, allocationInProgress := 0, None;
      offered, paid, refused, accepted := 0, 0, 0, 0;
    }

    method StartAllocation()
      modifies this
      ensures State() == Started(old(State()))
    {
      if accumulatedBytes > 0 && allocationInProgress.None? {
        allocationInProgress := Some(accumulatedBytes);
        accumulatedBytes := 0;
      }
    }

    method PollAllocation(answer: Allocation) returns (stop: Option<Poll>)
      modifies this
      ensures (State(), stop) == Awaited(old(State()), answer)
    {
      if allocationInProgress.Some? {
        match answer {
          case Granted =>
            paid := paid + allocationInProgress.value;
            allocationInProgress := None;
            stop := None;
          case Refused =>
            refused := refused + allocationInProgress.value;
            allocationInProgress := None;
            stop := Some(Finished(StorageFull));
          case Waiting =>
            stop := Some(Pending);
        }
      } else {
        stop := None;
      }
    }

    method PollWrite(size: nat, first: Allocation, second: Allocation, file: Polled) returns (poll: Poll)
      requires SanePoll(Event.PollWrite(size, first, second, file))
      modifies this
      ensures (State(), poll) == Wrote(old(State()), size, first, second, file)
    {
      hide WrapI64;
      var stop := PollAllocation(first);
      if stop.Some? {
        return stop.value;
      }
      accumulatedBytes := WrapI64(accumulatedBytes + size);
      offered := offered + size;
      if accumulatedBytes >= ALLOCATION_THRESHOLD {
        StartAllocation();
        stop := PollAllocation(second);
        if stop.Some? {
          return stop.value;
        }
      }
      if file.Ready? && file.inner.Took? {
        accepted := accepted + file.inner.count;
      }
      poll := AnswerPoll(file);
    }

    method PollFlush(first: Allocation, second: Allocation, file: Polled) returns (poll: Poll)
      modifies this
      ensures (State(), poll) == Flushed(old(State()), first, second, file)
    {
      var stop := PollAllocation(first);
      if stop.Some? {
        return stop.value;
      }
      if accumulatedBytes > 0 {
        StartAllocation();
        stop := PollAllocation(second);
        if stop.Some? {
          return stop.value;
        }
      }
      poll := AnswerPoll(file);
    }

    method PollShutdown(first: Allocation, second: Allocation, file: Polled) returns (poll: Poll)
      modifies this
      ensures (State(), poll) == Flushed(old(State()), first, second, file)
    {
      var stop := PollAllocation(first);
      if stop.Some? {
        return stop.value;
      }
      if accumulatedBytes > 0 {
        StartAllocation();
        stop := PollAllocation(second);
        if stop.Some? {
          return stop.value;
        }
      }
      poll := AnswerPoll(file);
    }

    method StartSeek(inner: Inner) returns (outcome: Outcome)
      modifies this
      ensures State() == Started(old(State())) && outcome == Answer(inner)
    {
      if accumulatedBytes > 0 {
        StartAllocation();
      }
      outcome := Answer(inner);
    }

    method PollComplete(first: Allocation, file: Polled) returns (poll: Poll)
      modifies this
      ensures (State(), poll) == Completed(old(State()), first, file)
    {
      var stop := PollAllocation(first);
      if stop.Some? {
        return stop.value;
      }
      poll := AnswerPoll(file);
    }
  }

  function Created(): Polling {
    Polling(0, None, 0, 0, 0, 0)
  }

  function InFlight(p: Polling): nat {
    if p.inFlight.Some? then p.inFlight.value else 0
  }

  // Every byte offered is charged, turned down, in flight or gathered; never both of the last two; and the
  // file holds less than one batch beyond what was charged or turned down.
  ghost predicate Balanced(p: Polling) {
    && 0 <= p.accumulated < 1_024_000
    && (p.inFlight.Some? ==> p.inFlight.value > 0 && p.accumulated == 0)
    && p.paid + p.refused + InFlight(p) + p.accumulated == p.offered
    && p.accepted <= p.offered
    && p.accepted <= p.paid + p.refused + 1_023_999
  }

  lemma WroteBalanced(p: Polling, size: nat, first: Allocation, second: Allocation, file: Polled)
    requires Balanced(p) && SanePoll(PollWrite(size, first, second, file))
    ensures var after := Wrote(p, size, first, second, file).0;
      Balanced(after) && after.offered <= p.offered + size
  {
    hide WrapI64;
    var ready := Awaited(p, first).0;
    assert WrapI64(ready.accumulated + size) == ready.accumulated + size by {
      SmallSizes(ready.accumulated + size);
    }
  }

  lemma EventBalanced(p: Polling, event: Event)
    requires Balanced(p) && SanePoll(event)
    ensures var after := Handled(p, event).0;
      Balanced(after) && after.offered <= p.offered + if event.PollWrite? then event.size else 0
  {
    hide Wrote;
    if event.PollWrite? {
      WroteBalanced(p, event.size, event.first, event.second, event.file);
    }
  }

  function OfferedBy(events: seq<Event>): nat {
    if events == [] then 0
    else
      var last := events[|events| - 1];
      OfferedBy(events[..|events| - 1]) + if last.PollWrite? then last.size else 0
  }

  predicate AllSane(events: seq<Event>) {
    forall event | event in events :: SanePoll(event)
  }

  ghost function PollRun(events: seq<Event>): Polling {
    if events == [] then Created()
    else Handled(PollRun(events[..|events| - 1]), events[|events| - 1]).0
  }

  lemma {:induction false} RunBalanced(events: seq<Event>)
    requires AllSane(events)
    ensures Balanced(PollRun(events)) && PollRun(events).offered <= OfferedBy(events)
    decreases |events|
  {
    hide Balanced;
    hide Handled;
    hide SanePoll;
    NothingRun(0, Granted);
    if events != [] {
      var init, last := events[..|events| - 1], events[|events| - 1];
      assert last in events && PollRun(events) == Handled(PollRun(init), last).0;
      RunBalanced(init);
      EventBalanced(PollRun(init), last);
    }
  }

  // Main result for the polled writer: in every interleaving of polls, pending answers, seeks and flushes
  // the bytes in the file are covered; without a refusal, by what was charged and is still owed, and to
  // within one batch by what was charged.
  lemma NeverUndercounts(events: seq<Event>)
    requires AllSane(events)
    ensures var p := PollRun(events);
      && p.accepted <= p.paid + p.refused + InFlight(p) + p.accumulated
      && (p.refused == 0 ==>
            p.accepted <= p.paid + InFlight(p) + p.accumulated && p.accepted <= p.paid + 1_023_999)
      && (p.inFlight.Some? ==> p.accumulated == 0)
  {
    RunBalanced(events);
  }

  // What one event adds up without the file taking it: a write let through by its first poll counts its whole
  // size, whether its allocation is then granted, pending or refused, and whether the file takes all of it,
  // some, or answers that it is blocked or failed.
  function WastedBy(p: Polling, event: Event): int {
    if !event.PollWrite? || (p.inFlight.Some? && !event.first.Granted?) then 0
    else
      var reaches := WrapI64(p.accumulated + event.size) < ALLOCATION_THRESHOLD || event.second.Granted?;
      event.size - if reaches && event.file.Ready? && event.file.inner.Took? then event.file.inner.count else 0
  }

  ghost function Wasted(events: seq<Event>): int {
    if events == [] then 0
    else
      var init := events[..|events| - 1];
      Wasted(init) + WastedBy(PollRun(init), events[|events| - 1])
  }

  lemma EventWastes(p: Polling, event: Event)
    requires Balanced(p) && SanePoll(event)
    ensures var after := Handled(p, event).0;
      && 0 <= WastedBy(p, event)
      && after.offered - after.accepted == p.offered - p.accepted + WastedBy(p, event)
  {
    hide WrapI64;
    if event.PollWrite? {
      assert WrapI64(p.accumulated + event.size) == p.accumulated + event.size by {
        SmallSizes(p.accumulated + event.size);
      }
      SmallSizes(event.size);
    }
  }

  // Over every run, what was offered and not accepted is what was wasted.
  lemma {:induction false} OfferedIsWasted(events: seq<Event>)
    requires AllSane(events)
    ensures PollRun(events).offered - PollRun(events).accepted == Wasted(events) >= 0
    decreases |events|
  {
    hide Balanced;
    hide Handled;
    hide WastedBy;
    hide SanePoll;
    if events != [] {
      var init, last := events[..|events| - 1], events[|events| - 1];
      RunBalanced(init);
      OfferedIsWasted(init);
      EventWastes(PollRun(init), last);
    }
  }

  // Main result: the writer under-counts exactly when more was refused than wasted, and by exactly how much
  // the charge is off is known in every state of every run.
  lemma {:induction false} UndercountsExactly(events: seq<Event>)
    requires AllSane(events)
    ensures var p, wasted := PollRun(events), Wasted(events);
      && p.paid + p.refused + InFlight(p) + p.accumulated == p.accepted + wasted
      && (p.accepted <= p.paid + InFlight(p) + p.accumulated <==> p.refused <= wasted)
      && (p.accepted <= p.paid + 1_023_999 <==> p.refused + InFlight(p) + p.accumulated <= wasted + 1_023_999)
      && (p.inFlight.None? && p.accumulated == 0 ==> (p.paid == p.accepted <==> p.refused == wasted))
  {
    RunBalanced(events);
    OfferedIsWasted(events);
  }

  // What the two polls of the allocation let through.
  predicate FirstPasses(p: Polling, first: Allocation) {
    p.inFlight.None? || first == Granted
  }

  // What a polled write answers: the file's own answer exactly if both allocations it has to wait for are
  // granted, and only then does the file take anything; otherwise that the disk is full or that it is pending,
  // as the one that is not granted is turned down or not.
  lemma WriteAnswered(p: Polling, size: nat, first: Allocation, second: Allocation, file: Polled)
    requires Balanced(p) && SanePoll(PollWrite(size, first, second, file))
    ensures var (after, poll) := Handled(p, PollWrite(size, first, second, file));
      var batch := FirstPasses(p, first) && p.accumulated + size >= 1_024_000;
      var reached := FirstPasses(p, first) && (batch ==> second == Granted);
      && (forall n :: poll == Finished(Done(n)) <==> reached && file == Ready(Took(n)))
      && (poll == Finished(InnerError) <==> reached && file == Ready(Failed))
      && (poll == Finished(StorageFull) <==> after.refused > p.refused)
      && (poll == Pending <==> after.inFlight.Some? || (reached && file == Blocked))
      && (after.inFlight.Some? <==> (p.inFlight.Some? && first == Waiting) || (batch && second == Waiting))
      && after.accepted == p.accepted + (if poll.Finished? && poll.outcome.Done? then poll.outcome.count else 0)
  {
    SmallSizes(p.accumulated + size);
    hide WrapI64;
  }

  // The counts that the writes of a run are answered with.
  ghost function Told(events: seq<Event>): nat {
    if events == [] then 0
    else
      var init, last := events[..|events| - 1], events[|events| - 1];
      var poll := Handled(PollRun(init), last).1;
      Told(init) + if last.PollWrite? && poll.Finished? && poll.outcome.Done? then poll.outcome.count else 0
  }

  // They add up to what the file took, in every run.
  lemma {:induction false} ToldIsAccepted(events: seq<Event>)
    ensures Told(events) == PollRun(events).accepted
    decreases |events|
  {
    hide Handled;
    if events != [] {
      var init, last := events[..|events| - 1], events[|events| - 1];
      ToldIsAccepted(init);
      EventTells(PollRun(init), last);
    }
  }

  lemma EventTells(p: Polling, event: Event)
    ensures var (after, poll) := Handled(p, event);
      after.accepted == p.accepted
        + if event.PollWrite? && poll.Finished? && poll.outcome.Done? then poll.outcome.count else 0
  {
    hide WrapI64;
  }

  // A flush or shutdown that reaches the file leaves nothing gathered or in flight, and answers as the file.
  lemma FlushReachesFile(p: Polling, first: Allocation, second: Allocation, file: Polled)
    requires Balanced(p)
    ensures Handled(p, PollFlush(first, second, file)) == Handled(p, PollShutdown(first, second, file))
    ensures var (after, poll) := Handled(p, PollFlush(first, second, file));
      var reached := FirstPasses(p, first) && (p.accumulated == 0 || second == Granted);
      && after.accepted == p.accepted
      && if reached then
           && (forall n :: poll == Finished(Done(n)) <==> file == Ready(Took(n)))
           && (poll == Finished(InnerError) <==> file == Ready(Failed)) && (poll == Pending <==> file == Blocked)
           && after.inFlight.None? && after.accumulated == 0
           && after.paid + after.refused == after.offered >= after.accepted
         else if after.inFlight.Some? then poll == Pending && after.refused == p.refused
         else poll == Finished(StorageFull) && after.refused > p.refused
  {
  }

  // A seek starts by sending what has gathered on its way, and answers as the file; it is complete when that
  // has been granted and the file says so.
  lemma SeekAnswered(p: Polling, inner: Inner, first: Allocation, file: Polled)
    requires Balanced(p)
    ensures var (after, poll) := Handled(p, StartSeek(inner));
      && after.accumulated == 0 && after.offered == p.offered && after.paid == p.paid && after.refused == p.refused
      && after.accepted == p.accepted
      && (poll == Finished(InnerError) <==> inner == Failed)
      && forall n :: poll == Finished(Done(n)) <==> inner == Took(n)
    ensures var (after, poll) := Handled(p, PollComplete(first, file));
      && after.accumulated == p.accumulated && after.offered == p.offered && after.accepted == p.accepted
      && (poll == Finished(StorageFull) <==> after.refused > p.refused)
      && (poll == Pending <==> after.inFlight.Some? || (FirstPasses(p, first) && file == Blocked))
      && (poll == Finished(InnerError) <==> FirstPasses(p, first) && file == Ready(Failed))
      && forall n :: poll == Finished(Done(n)) <==> FirstPasses(p, first) && file == Ready(Took(n))
  {
  }

  // The writer as it is dropped: what is gathered goes to one last allocation, what is in flight is lost.
  function Dropped(p: Polling, granted: bool): Polling {
    if p.accumulated > 0 && granted then p.(accumulated := 0, paid := p.paid + p.accumulated)
    else p
  }

  lemma DropSettles(p: Polling)
    requires Balanced(p) && p.inFlight.None? && p.refused == 0
    ensures Dropped(p, true).accepted <= Dropped(p, true).paid
  {
  }

  // A full batch less one byte is written and its flush refused, `rounds` times over.
  function Refusals(rounds: nat): seq<Event> {
    if rounds == 0 then []
    else Refusals(rounds - 1)
         + [PollWrite(1_023_999, Waiting, Waiting, Ready(Took(1_023_999)))]
         + [PollFlush(Waiting, Refused, Blocked)]
  }

  lemma RefusedRound(p: Polling)
    requires p.accumulated == 0 && p.inFlight.None?
    ensures var size := 1_023_999;
      var after := Handled(Handled(p, PollWrite(size, Waiting, Waiting, Ready(Took(size)))).0,
                           PollFlush(Waiting, Refused, Blocked)).0;
      after == p.(offered := p.offered + size, refused := p.refused + size, accepted := p.accepted + size)
  {
    SmallSizes(1_023_999);
    hide WrapI64;
  }

  // After a refusal the bound is gone: a refused batch is forgotten, so uncharged bytes grow without end.
  lemma {:induction false} RefusalsForget(rounds: nat)
    ensures AllSane(Refusals(rounds)) && OfferedBy(Refusals(rounds)) == rounds * 1_023_999
    ensures var p := PollRun(Refusals(rounds));
      && p.accepted == rounds * 1_023_999 && p.paid == 0
      && p.accumulated == 0 && p.inFlight.None?
  {
    if rounds > 0 {
      var size, before := 1_023_999, Refusals(rounds - 1);
      assert rounds * size == (rounds - 1) * size + size;
      RefusalsForget(rounds - 1);
      var write := PollWrite(size, Waiting, Waiting, Ready(Took(size)));
      var flush := PollFlush(Waiting, Refused, Blocked);
      assert (before + [write])[..|before|] == before;
      assert Refusals(rounds)[..|before| + 1] == before + [write];
      assert OfferedBy(before + [write]) == OfferedBy(before) + size;
      RefusedRound(PollRun(before));
      hide Handled;
    }
  }

  // One write made `retries` times to a file that is blocked, then once more to a file that takes it all, and
  // flushed. `second` is how each allocation a retry starts answers at first: it may be granted at once, or
  // be pending until the next poll.
  function Retried(size: nat, retries: nat, second: Allocation): seq<Event> {
    if retries == 0 then [] else Retried(size, retries - 1, second) + [PollWrite(size, Granted, second, Blocked)]
  }

  function RetriedAndFlushed(size: nat, retries: nat, second: Allocation): seq<Event> {
    Retried(size, retries, second)
    + [PollWrite(size, Granted, Granted, Ready(Took(size)))] + [PollFlush(Granted, Granted, Blocked)]
  }

  lemma {:induction false} RetriedGathers(size: nat, retries: nat, second: Allocation)
    requires size <= I64_MAX - (ALLOCATION_THRESHOLD - 1) && !second.Refused?
    ensures var events := Retried(size, retries, second);
      && AllSane(events) && OfferedBy(events) == retries * size
      && var p := PollRun(events);
         Balanced(p) && p.refused == 0 && p.accepted == 0 && p.offered == retries * size
  {
    hide *;
    if retries == 0 {
      NothingRun(size, second);
    } else {
      var init, last := Retried(size, retries - 1, second), PollWrite(size, Granted, second, Blocked);
      Times(size, retries);
      RetriedGathers(size, retries - 1, second);
      RetriedNext(size, retries, second);
      RunNext(init, last);
      BlockedGathers(PollRun(init), size, second);
      RunBalanced(init + [last]);
    }
  }

  lemma NothingRun(size: nat, second: Allocation)
    ensures Retried(size, 0, second) == [] && AllSane([]) && OfferedBy([]) == 0 == 0 * size
    ensures PollRun([]) == Created() && Balanced(Created())
    ensures Created().refused == 0 && Created().accepted == 0 && Created().offered == 0
  {
  }

  lemma RetriedNext(size: nat, retries: nat, second: Allocation)
    requires retries > 0
    ensures Retried(size, retries, second)
      == Retried(size, retries - 1, second) + [PollWrite(size, Granted, second, Blocked)]
    ensures size <= I64_MAX - (ALLOCATION_THRESHOLD - 1) ==> SanePoll(PollWrite(size, Granted, second, Blocked))
  {
  }

  lemma RunNext(events: seq<Event>, event: Event)
    ensures PollRun(events + [event]) == Handled(PollRun(events), event).0
    ensures OfferedBy(events + [event]) == OfferedBy(events) + if event.PollWrite? then event.size else 0
    ensures AllSane(events + [event]) <==> AllSane(events) && SanePoll(event)
  {
    hide Handled;
    hide SanePoll;
    var all := events + [event];
    assert all[..|all| - 1] == events;
    assert event in all && forall e | e in events :: e in all;
  }

  lemma Times(size: nat, retries: nat)
    requires retries > 0
    ensures retries * size == (retries - 1) * size + size && (retries + 1) * size == retries * size + size
    ensures 0 <= (retries - 1) * size && 0 <= retries * size
  {
  }

  lemma BlockedGathers(p: Polling, size: nat, second: Allocation)
    requires Balanced(p) && size <= I64_MAX - (ALLOCATION_THRESHOLD - 1) && !second.Refused?
    ensures var after := Handled(p, PollWrite(size, Granted, second, Blocked)).0;
      after.refused == p.refused && after.accepted == p.accepted && after.offered == p.offered + size
  {
    hide WrapI64;
  }

  lemma TakenAndFlushed(p: Polling, size: nat)
    requires Balanced(p) && size <= I64_MAX - (ALLOCATION_THRESHOLD - 1) && p.refused == 0
    ensures var written := Handled(p, PollWrite(size, Granted, Granted, Ready(Took(size)))).0;
      var after := Handled(written, PollFlush(Granted, Granted, Blocked)).0;
      after == Polling(0, None, p.offered + size, p.offered + size, 0, p.accepted + size)
  {
    var write, flush := PollWrite(size, Granted, Granted, Ready(Took(size))), PollFlush(Granted, Granted, Blocked);
    var written := Handled(p, write).0;
    WroteBalanced(p, size, Granted, Granted, write.file);
    assert written.refused == 0 && written.offered == p.offered + size && written.accepted == p.accepted + size
      && written.inFlight.None? by {
      hide WrapI64;
      hide Balanced;
    }
    hide Wrote;
  }

  // The books err the other way freely: a write of any size is charged once for every time it is retried, be
  // it for a pending allocation or a blocked file, and once for the bytes the file takes in the end.
  lemma RetriesOvercharge(size: nat, retries: nat, second: Allocation)
    requires size <= I64_MAX - (ALLOCATION_THRESHOLD - 1) && !second.Refused?
    ensures var events := RetriedAndFlushed(size, retries, second);
      && AllSane(events)
      && var p := PollRun(events);
         p.accepted == size && p.paid == (retries + 1) * size && p.inFlight.None? && p.accumulated == 0
  {
    var before := Retried(size, retries, second);
    var write, flush := PollWrite(size, Granted, Granted, Ready(Took(size))), PollFlush(Granted, Granted, Blocked);
    var events := RetriedAndFlushed(size, retries, second);
    hide *;
    Times(size, retries + 1);
    RetriedGathers(size, retries, second);
    RunNext(before, write);
    RunNext(before + [write], flush);
    LastEvents(size, retries, second);
    TakenAndFlushed(PollRun(before), size);
  }

  lemma LastEvents(size: nat, retries: nat, second: Allocation)
    ensures var write := PollWrite(size, Granted, Granted, Ready(Took(size)));
      && RetriedAndFlushed(size, retries, second)
         == Retried(size, retries, second) + [write] + [PollFlush(Granted, Granted, Blocked)]
      && (size <= I64_MAX - (ALLOCATION_THRESHOLD - 1) ==> SanePoll(write))
      && SanePoll(PollFlush(Granted, Granted, Blocked))
  {
  }
}
