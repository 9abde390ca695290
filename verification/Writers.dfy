/** The two writers that charge file bytes against the disk quota in batches. */
module Writers {
  import opened PathMaps
  import opened DiskIndex
  import opened Ledgers
  import opened Filesystems
  import opened DiskRuns

  const ALLOCATION_THRESHOLD: int := 1_024_000

  // What the file underneath answers to one call.
  datatype Inner = Took(count: nat) | Failed

  datatype Outcome = Done(count: nat) | StorageFull | InnerError

  function Answer(inner: Inner): Outcome {
    if inner.Took? then Done(inner.count) else InnerError
  }

  // A writer and the disk it charges. `offered`, `paid` and `accepted` count bytes since it was opened:
  // handed to it, charged for it, and taken by the file underneath.
  datatype Writing = Writing(disk: Disk, accumulated: i64, offered: nat, paid: nat, accepted: nat)

  datatype Call =
    | Write(size: nat, inner: Inner)
    | Flush(inner: Inner)
    | Seek(inner: Inner)
    | Elsewhere(disk: Disk) // someone else's allocation, free or rescan

  // The file underneath takes no more than it is given, and buffers have a length that fits.
  predicate Sane(call: Call) {
    call.Write? ==> call.size <= I64_MAX && (call.inner.Took? ==> call.inner.count <= call.size)
  }

  ghost function PayUp(w: Writing, parent: Path): (Writing, bool) {
    if w.accumulated <= 0 then (w, true)
    else if !Admits(w.disk.cached, w.disk.limit, w.accumulated) then (w, false)
    else (w.(disk := AllocateRaw(w.disk, parent, w.accumulated), accumulated := 0,
             paid := w.paid + w.accumulated), true)
  }

  ghost function Written(w: Writing, parent: Path, size: nat, inner: Inner): (Writing, Outcome) {
    var grown := w.(accumulated := WrapI64(w.accumulated + size), offered := w.offered + size);
    var (charged, ok) := if grown.accumulated >= ALLOCATION_THRESHOLD then PayUp(grown, parent) else (grown, true);
    if !ok then (charged, StorageFull)
    else (if inner.Took? then charged.(accepted := charged.accepted + inner.count) else charged, Answer(inner))
  }

  // A flush and a seek: charge what has gathered, then pass the call on.
  ghost function Synced(w: Writing, parent: Path, inner: Inner): (Writing, Outcome) {
    var (charged, ok) := PayUp(w, parent);
    if ok then (charged, Answer(inner)) else (charged, StorageFull)
  }

  ghost function Called(w: Writing, parent: Path, call: Call): (Writing, Outcome) {
    match call
    case Write(size, inner) => Written(w, parent, size, inner)
    case Flush(inner) => Synced(w, parent, inner)
    case Seek(inner) => Synced(w, parent, inner)
    case Elsewhere(disk) => (w.(disk := disk), Done(0))
  }

  ghost function Run(w: Writing, parent: Path, calls: seq<Call>): Writing {
    if calls == [] then w
    else Called(Run(w, parent, calls[..|calls| - 1]), parent, calls[|calls| - 1]).0
  }

  function Opened(disk: Disk): Writing {
    Writing(disk, 0, 0, 0, 0)
  }

  function Offered(calls: seq<Call>): nat {
    if calls == [] then 0
    else
      var last := calls[|calls| - 1];
      Offered(calls[..|calls| - 1]) + if last.Write? then last.size else 0
  }

  class FileSystemWriter {
    const fs: Filesystem
    const parent: Path
    var accumulatedBytes: i64
    ghost var offered: nat
    ghost var paid: nat
    ghost var accepted: nat

    ghost predicate Valid()
      reads this, fs, fs.shape.nodes.Values
    {
      fs.Valid()
    }

    ghost function State(): Writing
      reads this, fs
    {
      Writing(fs.Accounts(), accumulatedBytes, offered, paid, accepted)
    }

    constructor (fs: Filesystem, parent: Path)
      requires fs.Valid()
      ensures Valid() && this.fs == fs && this.parent == parent
      ensures State() == Opened(fs.Accounts())
    {
      this.fs, this.parent := fs, parent;
      accumulatedBytes := 0;
      offered, paid, accepted := 0, 0, 0;
    }

    method AllocateAccumulated() returns (ok: bool)
      requires Valid()
      modifies this`accumulatedBytes, this`paid, fs`diskUsageCached, fs`shape, fs.shape.nodes.Values
      ensures Valid() && fresh(fs.shape.nodes.Values - old(fs.shape.nodes.Values))
      ensures (State(), ok) == PayUp(old(State()), parent)
    {
      hide AllocateRaw;
      hide Filesystem.Valid;
      hide Admits;
      if accumulatedBytes > 0 {
        ok := fs.AllocateInPathRaw(parent, accumulatedBytes);
        if !ok {
          assert old(fs.Accounts()) == AllocateRaw(old(fs.Accounts()), parent, accumulatedBytes) by {
            RefusedIsNothing(old(fs.Accounts()), parent, accumulatedBytes);
          }
          return;
        }
        paid := paid + accumulatedBytes;
        accumulatedBytes := 0;
      }
      ok := true;
    }

    method Write(size: nat, inner: Inner) returns (outcome: Outcome)
      requires Valid() && Sane(Call.Write(size, inner))
      modifies this`accumulatedBytes, this`offered, this`paid, this`accepted,
        fs`diskUsageCached, fs`shape, fs.shape.nodes.Values
      ensures Valid() && fresh(fs.shape.nodes.Values - old(fs.shape.nodes.Values))
      ensures (State(), outcome) == Written(old(State()), parent, size, inner)
    {
      hide PayUp;
      hide WrapI64;
      hide Filesystem.Valid;
      accumulatedBytes := WrapI64(accumulatedBytes + size);
      offered := offered + size;
      if accumulatedBytes >= ALLOCATION_THRESHOLD {
        var ok := AllocateAccumulated();
        if !ok {
          return StorageFull;
        }
      }
      if inner.Took? {
        accepted := accepted + inner.count;
      }
      outcome := Answer(inner);
    }

    method Flush(inner: Inner) returns (outcome: Outcome)
      requires Valid()
      modifies this`accumulatedBytes, this`paid, fs`diskUsageCached, fs`shape, fs.shape.nodes.Values
      ensures Valid() && fresh(fs.shape.nodes.Values - old(fs.shape.nodes.Values))
      ensures (State(), outcome) == Synced(old(State()), parent, inner)
    {
      hide PayUp;
      hide Filesystem.Valid;
      var ok := AllocateAccumulated();
      outcome := if ok then Answer(inner) else StorageFull;
    }

    method Seek(inner: Inner) returns (outcome: Outcome)
      requires Valid()
      modifies this`accumulatedBytes, this`paid, fs`diskUsageCached, fs`shape, fs.shape.nodes.Values
      ensures Valid() && fresh(fs.shape.nodes.Values - old(fs.shape.nodes.Values))
      ensures (State(), outcome) == Synced(old(State()), parent, inner)
    {
      hide PayUp;
      hide Filesystem.Valid;
      var ok := AllocateAccumulated();
      outcome := if ok then Answer(inner) else StorageFull;
    }
  }

  lemma RefusedIsNothing(disk: Disk, path: Path, delta: i64)
    ensures delta != 0 && !Admits(disk.cached, disk.limit, delta) ==> AllocateRaw(disk, path, delta) == disk
  {
  }

  // Every byte handed over is either charged or still gathered, and what the file took was handed over.
  predicate Books(w: Writing) {
    && w.accumulated >= 0 && w.paid + w.accumulated == w.offered && w.accepted <= w.offered
    && w.accepted <= w.paid + 1_023_999
  }

  // What a write adds to the bytes gathered fits the signed 64-bit number they are kept in.
  predicate Gathers(w: Writing, call: Call) {
    call.Write? ==> w.accumulated + call.size <= I64_MAX
  }

  ghost predicate GathersThroughout(disk: Disk, parent: Path, calls: seq<Call>) {
    calls == []
    || (var init, last := calls[..|calls| - 1], calls[|calls| - 1];
        && GathersThroughout(disk, parent, init)
        && Sane(last) && Gathers(Run(Opened(disk), parent, init), last))
  }

  lemma CallKeepsBooks(w: Writing, parent: Path, call: Call)
    requires Books(w) && Sane(call) && Gathers(w, call)
    ensures Books(Called(w, parent, call).0)
  {
    hide AllocateRaw;
    hide Admits;
    hide WrapI64;
    if call.Write? {
      assert WrapI64(w.accumulated + call.size) == w.accumulated + call.size by {
        SmallSizes(w.accumulated + call.size);
      }
    }
  }

  // Main result for the blocking writer: whatever is refused and whoever else uses the disk, the file never
  // holds more than one byte short of a batch beyond what was charged.
  lemma {:induction false} RunKeepsBooks(disk: Disk, parent: Path, calls: seq<Call>)
    requires GathersThroughout(disk, parent, calls)
    ensures var w := Run(Opened(disk), parent, calls);
      && Books(w) && w.offered == Offered(calls)
    decreases |calls|
  {
    hide Called;
    hide Books;
    if calls == [] {
      OpenedBooks(disk);
    } else {
      var init, last := calls[..|calls| - 1], calls[|calls| - 1];
      RunKeepsBooks(disk, parent, init);
      CallOffers(Run(Opened(disk), parent, init), parent, last);
      CallKeepsBooks(Run(Opened(disk), parent, init), parent, last);
    }
  }

  lemma OpenedBooks(disk: Disk)
    ensures Books(Opened(disk))
  {
  }

  lemma CallOffers(w: Writing, parent: Path, call: Call)
    ensures Called(w, parent, call).0.offered == w.offered + if call.Write? then call.size else 0
  {
    hide AllocateRaw;
    hide Admits;
    hide WrapI64;
  }

  // What a write answers: that the disk is full exactly if what has gathered comes to a batch and the gate
  // turns it down, and then the file is not asked; otherwise what the file says. A batch is charged at once,
  // and less is not.
  lemma WriteAnswers(w: Writing, parent: Path, size: nat, inner: Inner)
    requires Books(w) && Sane(Write(size, inner)) && Gathers(w, Write(size, inner))
    ensures var (after, outcome) := Called(w, parent, Write(size, inner));
      var gathered := w.accumulated + size;
      var full := gathered >= 1_024_000 && !Admits(w.disk.cached, w.disk.limit, gathered);
      && (outcome == StorageFull <==> full)
      && (outcome == InnerError <==> !full && inner == Failed)
      && (forall n :: outcome == Done(n) <==> !full && inner == Took(n))
      && after.accepted == w.accepted + (if !full && inner.Took? then inner.count else 0)
      && (gathered < 1_024_000 || full ==> after.disk == w.disk && after.accumulated == gathered)
      && (gathered >= 1_024_000 && !full ==> after.accumulated == 0 && after.paid == w.paid + gathered)
  {
    hide AllocateRaw;
    hide Admits;
    SmallSizes(w.accumulated + size);
    hide WrapI64;
  }

  // A flush or seek that reaches the file answers what the file says and leaves nothing uncharged; one that
  // does not, because the gate turns down what has gathered, changes nothing.
  lemma FlushSettles(w: Writing, parent: Path, inner: Inner)
    requires Books(w)
    ensures var (after, outcome) := Synced(w, parent, inner);
      && (outcome == StorageFull <==> w.accumulated > 0 && !Admits(w.disk.cached, w.disk.limit, w.accumulated))
      && if outcome.StorageFull? then after == w
         else
           && after.accumulated == 0 && after.accepted == w.accepted <= after.paid == after.offered
           && (outcome == InnerError <==> inner == Failed) && forall n :: outcome == Done(n) <==> inner == Took(n)
  {
    hide AllocateRaw;
    hide Admits;
  }

  // The bytes that the writes of a run were told are done.
  ghost function Told(disk: Disk, parent: Path, calls: seq<Call>): nat {
    if calls == [] then 0
    else
      var init, last := calls[..|calls| - 1], calls[|calls| - 1];
      var outcome := Called(Run(Opened(disk), parent, init), parent, last).1;
      Told(disk, parent, init) + if last.Write? && outcome.Done? then outcome.count else 0
  }

  // They are the bytes the file took, in every run.
  lemma {:induction false} ToldIsAccepted(disk: Disk, parent: Path, calls: seq<Call>)
    ensures Told(disk, parent, calls) == Run(Opened(disk), parent, calls).accepted
    decreases |calls|
  {
    if calls != [] {
      var init, last := calls[..|calls| - 1], calls[|calls| - 1];
      ToldIsAccepted(disk, parent, init);
      hide Called;
    }
  }

  // The slack is real: one write short of a batch is taken and never charged if the writer is then dropped.
  lemma SlackAttained(disk: Disk, parent: Path)
    ensures Run(Opened(disk), parent, [Write(1_023_999, Took(1_023_999))])
      == Writing(disk, 1_023_999, 1_023_999, 0, 1_023_999)
  {
    SmallSizes(1_023_999);
    assert [Write(1_023_999, Took(1_023_999))][..0] == [];
  }

  predicate Undisturbed(calls: seq<Call>) {
    forall call | call in calls :: !call.Elsewhere?
  }

  lemma PayUpSettles(w: Writing, parent: Path, ledger: Ledger)
    requires Agrees(w.disk, ledger) && 0 <= w.accumulated && Total(ledger) + w.accumulated <= U64_MAX
    ensures var after := PayUp(w, parent).0;
      Agrees(after.disk, Credit(ledger, parent, after.paid - w.paid))
  {
    AllocateSettles(w.disk, ledger, parent, w.accumulated);
  }

  lemma CreditTwice(ledger: Ledger, dir: Path, a: nat, b: nat)
    ensures Credit(Credit(ledger, dir, a), dir, b) == Credit(ledger, dir, a + b)
    ensures Total(Credit(ledger, dir, a)) == Total(ledger) + a
  {
    TotalSet(ledger, dir, Charged(ledger, dir) + a);
  }

  lemma CallSettles(w: Writing, parent: Path, call: Call, ledger: Ledger)
    requires Books(w) && Sane(call) && Gathers(w, call) && !call.Elsewhere? && Agrees(w.disk, ledger)
    requires Total(ledger) + w.accumulated + (if call.Write? then call.size else 0) <= U64_MAX
    ensures var after := Called(w, parent, call).0;
      && after.paid >= w.paid
      && Agrees(after.disk, Credit(ledger, parent, after.paid - w.paid))
  {
    hide PayUp;
    hide Agrees;
    hide WrapI64;
    if call.Write? {
      var grown := w.(accumulated := w.accumulated + call.size, offered := w.offered + call.size);
      assert WrapI64(w.accumulated + call.size) == grown.accumulated by {
        SmallSizes(grown.accumulated);
      }
      PayUpSettles(grown, parent, ledger);
      PayUpGrows(grown, parent);
    } else {
      PayUpSettles(w, parent, ledger);
      PayUpGrows(w, parent);
    }
    assert Credit(ledger, parent, 0) == ledger;
  }

  lemma PayUpGrows(w: Writing, parent: Path)
    ensures PayUp(w, parent).0.paid >= w.paid
  {
  }

  // The same, told from the moment the writer was opened.
  lemma CallAdds(w: Writing, parent: Path, call: Call, ledger: Ledger)
    requires Books(w) && Sane(call) && Gathers(w, call) && !call.Elsewhere?
    requires Agrees(w.disk, Credit(ledger, parent, w.paid))
    requires Total(ledger) + w.offered + (if call.Write? then call.size else 0) <= U64_MAX
    ensures var after := Called(w, parent, call).0;
      Agrees(after.disk, Credit(ledger, parent, after.paid))
  {
    hide Agrees;
    hide Called;
    var after := Called(w, parent, call).0;
    CreditTwice(ledger, parent, w.paid, 0);
    CallSettles(w, parent, call, Credit(ledger, parent, w.paid));
    CreditTwice(ledger, parent, w.paid, after.paid - w.paid);
  }

  // On a disk nobody else touches, index, counter and ledger all gain exactly what the writer was charged,
  // below its parent directory.
  lemma {:induction false} RunSettles(disk: Disk, parent: Path, calls: seq<Call>, ledger: Ledger)
    requires GathersThroughout(disk, parent, calls) && Undisturbed(calls)
    requires Agrees(disk, ledger) && Total(ledger) + Offered(calls) <= U64_MAX
    ensures var w := Run(Opened(disk), parent, calls);
      Agrees(w.disk, Credit(ledger, parent, w.paid))
    decreases |calls|
  {
    hide Agrees;
    hide Total;
    hide Called;
    if calls == [] {
      assert Credit(ledger, parent, 0) == ledger;
    } else {
      var init, last := calls[..|calls| - 1], calls[|calls| - 1];
      RunSettles(disk, parent, init, ledger);
      RunKeepsBooks(disk, parent, init);
      hide Credit;
      CallAdds(Run(Opened(disk), parent, init), parent, last, ledger);
    }
  }
}
