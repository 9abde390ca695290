/** Runs of accounting operations: the nested index and the cached counter agree with the flat ledger. */
module DiskRuns {
  import opened PathMaps
  import opened DiskIndex
  import opened Ledgers
  import opened Filesystems

  datatype Operation =
    | Allocate(dir: Path, bytes: nat)
    | Free(dir: Path, bytes: nat)
    | DeleteFile(path: Path, bytes: nat)
    | DeleteDirectory(path: Path)
    | MoveFile(oldParent: Path, newParent: Path, bytes: nat)
    | MoveDirectory(from: Path, to: Path)
    | DeleteEverything

  // The one directory an operation names its bytes by has `bytes` that fit the source's signed deltas.
  predicate Representable(op: Operation) {
    op.DeleteDirectory? || op.MoveDirectory? || op.DeleteEverything? || op.bytes <= I64_MAX
  }

  ghost function Apply(disk: Disk, op: Operation): Disk
    requires Representable(op)
  {
    match op
    case Allocate(dir, bytes) => AllocateRaw(disk, dir, bytes)
    case Free(dir, bytes) => AllocateRaw(disk, dir, -(bytes as int))
    case DeleteFile(path, bytes) => TruncateFile(disk, path, bytes)
    case DeleteDirectory(path) => TruncateDirectory(disk, path)
    case MoveFile(oldParent, newParent, bytes) => RenameFile(disk, oldParent, newParent, bytes)
    case MoveDirectory(from, to) => RenameDirectory(disk, from, to)
    case DeleteEverything => TruncateRoot(disk)
  }

  // What really happens to the files. A refused allocation writes nothing; a refused re-allocation does
  // not keep a file move back.
  ghost function Posted(disk: Disk, ledger: Ledger, op: Operation): Ledger
    requires Representable(op) && Truthful(ledger, op)
  {
    match op
    case Allocate(dir, bytes) =>
      if Admits(disk.cached, disk.limit, bytes) then Credit(ledger, dir, bytes) else ledger
    case Free(dir, bytes) => Debit(ledger, dir, bytes)
    case DeleteFile(path, bytes) => Debit(ledger, Parent(path), bytes)
    case DeleteDirectory(path) => Prune(ledger, path)
    case MoveFile(oldParent, newParent, bytes) => Credit(Debit(ledger, oldParent, bytes), newParent, bytes)
    case MoveDirectory(from, to) => Moved(ledger, from, to)
    case DeleteEverything => map[]
  }

  ghost function Credit(ledger: Ledger, dir: Path, bytes: nat): Ledger {
    if bytes == 0 then ledger else ledger[dir := Charged(ledger, dir) + bytes]
  }

  ghost function Debit(ledger: Ledger, dir: Path, bytes: nat): Ledger
    requires bytes <= Charged(ledger, dir)
  {
    if bytes == 0 then ledger else ledger[dir := Charged(ledger, dir) - bytes]
  }

  // An operation that can happen to the files: it frees no more than is there, deletes a file that is not
  // also a directory, and moves no directory into itself.
  ghost predicate Truthful(ledger: Ledger, op: Operation) {
    match op
    case Allocate(dir, bytes) => true
    case Free(dir, bytes) => bytes <= Charged(ledger, dir)
    case DeleteFile(path, bytes) =>
      path != [] && bytes <= Charged(ledger, Parent(path)) && Used(ledger, path) == 0
    case DeleteDirectory(path) => path != []
    case MoveFile(oldParent, newParent, bytes) => bytes <= Charged(ledger, oldParent)
    case MoveDirectory(from, to) => from != [] && to != [] && !(from < to)
    case DeleteEverything => true
  }

  ghost predicate AgreesAt(index: Index, ledger: Ledger, d: Path) {
    d != [] ==> SizeOr0(index, d) == Used(ledger, d)
  }

  // The index has, for every directory but the root, the bytes at or below it; the counter has them all.
  ghost predicate Agrees(disk: Disk, ledger: Ledger) {
    [] in disk.index && disk.cached == Total(ledger) && forall d :: AgreesAt(disk.index, ledger, d)
  }

  // The guard under which the code's accounting of the operation is right. A caller can check it against the
  // index and the counter before the call.
  predicate Settles(disk: Disk, op: Operation) {
    match op
    case MoveFile(_, _, bytes) => bytes == 0 || disk.limit == 0 || WrapI64(disk.cached) <= disk.limit
    case DeleteDirectory(path) => SizeOr0(disk.index, path) <= I64_MAX + 1 || HugeSettles(disk, path)
    case MoveDirectory(from, to) =>
      from !in disk.index
      || SizeOr0(disk.index, to) == if to <= from then disk.index[from] else 0
    case _ => true
  }

  // A directory of more than 2^63 bytes asks the gate for bytes where it should free them. That comes out right
  // if the gate admits them and no directory above it has anything besides.
  predicate HugeSettles(disk: Disk, path: Path) {
    var size := SizeOr0(disk.index, path);
    && (disk.limit == 0 || disk.cached - size <= disk.limit)
    && forall i | 0 < i < |path| :: SizeOr0(disk.index, path[..i]) == size
  }

  lemma CreditAt(index: Index, ledger: Ledger, dir: Path, bytes: nat, d: Path)
    requires AgreesAt(index, ledger, d) && Total(ledger) + bytes <= U64_MAX && 0 < bytes <= I64_MAX
    ensures AgreesAt(Updated(index, dir, bytes), Credit(ledger, dir, bytes), d)
  {
    hide Updated;
    hide Used;
    UpdatedSize(index, dir, bytes, d);
    UsedSet(ledger, dir, Charged(ledger, dir) + bytes, d);
    UsedMonotone(ledger, d, d);
  }

  lemma CreditSettles(disk: Disk, ledger: Ledger, dir: Path, bytes: nat)
    requires Agrees(disk, ledger) && Total(ledger) + bytes <= U64_MAX && 0 < bytes <= I64_MAX
    ensures Agrees(Disk(Updated(disk.index, dir, bytes), disk.cached + bytes, disk.limit), Credit(ledger, dir, bytes))
  {
    var credited, after := Credit(ledger, dir, bytes), Updated(disk.index, dir, bytes);
    TotalSet(ledger, dir, Charged(ledger, dir) + bytes);
    hide Updated;
    hide AgreesAt;
    forall d ensures AgreesAt(after, credited, d) {
      assert AgreesAt(disk.index, ledger, d);
      CreditAt(disk.index, ledger, dir, bytes, d);
    }
  }

  lemma DebitAt(index: Index, ledger: Ledger, dir: Path, bytes: nat, d: Path)
    requires AgreesAt(index, ledger, d) && 0 < bytes <= Charged(ledger, dir) && bytes <= I64_MAX
    ensures AgreesAt(Updated(index, dir, -(bytes as int)), Debit(ledger, dir, bytes), d)
  {
    hide Updated;
    hide Used;
    UpdatedSize(index, dir, -(bytes as int), d);
    UsedSet(ledger, dir, Charged(ledger, dir) - bytes, d);
  }

  lemma DebitSettles(disk: Disk, ledger: Ledger, dir: Path, bytes: nat)
    requires Agrees(disk, ledger) && 0 < bytes <= Charged(ledger, dir) && bytes <= I64_MAX
    ensures disk.cached >= bytes
    ensures Agrees(Disk(Updated(disk.index, dir, -(bytes as int)), disk.cached - bytes, disk.limit),
                   Debit(ledger, dir, bytes))
  {
    var debited, after := Debit(ledger, dir, bytes), Updated(disk.index, dir, -(bytes as int));
    TotalSet(ledger, dir, Charged(ledger, dir) - bytes);
    hide Updated;
    hide AgreesAt;
    forall d ensures AgreesAt(after, debited, d) {
      assert AgreesAt(disk.index, ledger, d);
      DebitAt(disk.index, ledger, dir, bytes, d);
    }
  }

  lemma AllocateSettles(disk: Disk, ledger: Ledger, dir: Path, bytes: nat)
    requires Agrees(disk, ledger) && Total(ledger) + bytes <= U64_MAX && bytes <= I64_MAX
    ensures Agrees(AllocateRaw(disk, dir, bytes),
                   if Admits(disk.cached, disk.limit, bytes) then Credit(ledger, dir, bytes) else ledger)
  {
    if bytes > 0 {
      CreditSettles(disk, ledger, dir, bytes);
      hide Updated;
      hide Agrees;
    }
  }

  lemma FreeSettles(disk: Disk, ledger: Ledger, dir: Path, bytes: nat)
    requires Agrees(disk, ledger) && bytes <= Charged(ledger, dir) && bytes <= I64_MAX
    ensures Agrees(AllocateRaw(disk, dir, -(bytes as int)), Debit(ledger, dir, bytes))
  {
    if bytes > 0 {
      DebitSettles(disk, ledger, dir, bytes);
      hide Updated;
      hide Agrees;
    }
  }

  lemma DeleteFileAt(index: Index, ledger: Ledger, path: Path, bytes: nat, d: Path)
    requires AgreesAt(index, ledger, d) && AgreesAt(index, ledger, path)
    requires 0 < bytes <= I64_MAX && Truthful(ledger, DeleteFile(path, bytes))
    ensures AgreesAt(Updated(index, path, -(bytes as int)), Debit(ledger, Parent(path), bytes), d)
  {
    var dir := Parent(path);
    DebitAt(index, ledger, dir, bytes, d);
    assert path == dir + [Last(path)];
    PrefixOfChild(d, dir, Last(path));
    UpdatedSize(index, path, -(bytes as int), d);
    UpdatedSize(index, dir, -(bytes as int), d);
    hide Updated;
    hide Used;
  }

  // A file is freed under its own path: its parents lose its bytes, and the entry the call leaves at the
  // file's own path stays at zero.
  lemma DeleteFileSettles(disk: Disk, ledger: Ledger, path: Path, bytes: nat)
    requires Agrees(disk, ledger) && bytes <= I64_MAX && Truthful(ledger, DeleteFile(path, bytes))
    ensures Agrees(TruncateFile(disk, path, bytes), Debit(ledger, Parent(path), bytes))
  {
    if bytes > 0 {
      var debited, after := Debit(ledger, Parent(path), bytes), Updated(disk.index, path, -(bytes as int));
      DebitSettles(disk, ledger, Parent(path), bytes);
      SmallSizes(bytes);
      hide Updated;
      hide AgreesAt;
      hide Freed;
      hide Debit;
      forall d ensures AgreesAt(after, debited, d) {
        assert AgreesAt(disk.index, ledger, d) && AgreesAt(disk.index, ledger, path);
        DeleteFileAt(disk.index, ledger, path, bytes, d);
      }
    } else {
      SmallSizes(0);
    }
  }

  lemma DeleteDirectoryAt(index: Index, ledger: Ledger, path: Path, d: Path)
    requires AgreesAt(index, ledger, d) && AgreesAt(index, ledger, path)
    requires path in index && 0 < index[path] <= I64_MAX + 1 && path != []
    ensures AgreesAt(Removed(Updated(index, path, -(index[path] as int)), path), Prune(ledger, path), d)
  {
    var freed := Updated(index, path, -(index[path] as int));
    UpdatedSize(index, path, -(index[path] as int), d);
    UpdatedSize(index, path, -(index[path] as int), path);
    UsedSplit(ledger, path, d);
    if path <= d {
      UsedPruned(ledger, path, d);
    }
    assert path in freed;
    hide Updated;
    hide Removed;
    hide Used;
    if d != [] {
      RemovedSize(freed, path, d);
    }
  }

  // The delta of a huge directory saturates it and every directory above it, and taking it off then leaves
  // those at zero.
  lemma HugeDeleteAt(index: Index, ledger: Ledger, path: Path, d: Path)
    requires AgreesAt(index, ledger, d) && AgreesAt(index, ledger, path)
    requires path in index && index[path] > I64_MAX + 1 && path != []
    ensures var after := Removed(Updated(index, path, U64_MAX + 1 - index[path]), path);
      && (AgreesAt(after, Prune(ledger, path), d)
          <==> (d != [] && d < path ==> SizeOr0(index, d) == index[path]))
      && (d != [] && d < path ==> SizeOr0(after, d) == 0)
  {
    var size := index[path];
    var bumped := Updated(index, path, U64_MAX + 1 - size);
    UpdatedSize(index, path, U64_MAX + 1 - size, d);
    UpdatedSize(index, path, U64_MAX + 1 - size, path);
    UsedSplit(ledger, path, d);
    if path <= d {
      UsedPruned(ledger, path, d);
    } else if d <= path {
      UsedMonotone(ledger, path, d);
    }
    assert path in bumped;
    hide Updated;
    hide Removed;
    hide Used;
    if d != [] {
      RemovedSize(bumped, path, d);
    }
  }

  lemma DeleteEmptyAt(index: Index, ledger: Ledger, path: Path, d: Path)
    requires AgreesAt(index, ledger, d) && Used(ledger, path) == 0
    ensures AgreesAt(index, Prune(ledger, path), d)
  {
    hide Used;
    UsedSplit(ledger, path, d);
    if path <= d {
      UsedPruned(ledger, path, d);
      UsedMonotone(ledger, d, path);
    }
  }

  // Deleting a directory runs both `update_size` and `remove_path`, yet each directory above loses the
  // bytes once.
  lemma OrdinaryDeleteSettles(disk: Disk, ledger: Ledger, path: Path)
    requires Agrees(disk, ledger) && path != [] && SizeOr0(disk.index, path) <= I64_MAX + 1
    ensures Agrees(TruncateDirectory(disk, path), Prune(ledger, path))
  {
    var index, size, kept := disk.index, SizeOr0(disk.index, path), Prune(ledger, path);
    assert AgreesAt(index, ledger, path);
    TotalSplit(ledger, path);
    FreedIs(size);
    hide Freed;
    hide Prune;
    hide Used;
    if size == 0 {
      forall d ensures AgreesAt(index, kept, d) {
        assert AgreesAt(index, ledger, d);
        DeleteEmptyAt(index, ledger, path, d);
      }
    } else {
      var after := Removed(Updated(index, path, -(size as int)), path);
      assert [] in after;
      hide Updated;
      hide Removed;
      hide AgreesAt;
      forall d ensures AgreesAt(after, kept, d) {
        assert AgreesAt(index, ledger, d) && AgreesAt(index, ledger, path);
        DeleteDirectoryAt(index, ledger, path, d);
      }
    }
  }

  lemma WrapRound(n: nat)
    ensures n <= I64_MAX ==> WrapI64(n + U64_MAX + 1) == n && WrapU64(n + U64_MAX + 1) == n
  {
  }

  // Asking for a huge directory's delta takes its size off the counter, by wrapping round, if it is admitted.
  lemma HugeAdmitted(cached: u64, limit: i64, size: u64)
    requires I64_MAX + 1 < size <= cached
    ensures Freed(size) == U64_MAX + 1 - size
    ensures Admits(cached, limit, Freed(size)) <==> limit == 0 || cached - size <= limit
    ensures Charge(cached, Freed(size)) == cached - size
  {
    hide WrapI64;
    hide WrapU64;
    hide Freed;
    FreedIs(size);
    WrapTwice(cached, U64_MAX + 1 - size);
    WrapRound(cached - size);
  }

  lemma HugeIndexSettles(index: Index, ledger: Ledger, path: Path, after: Index, kept: Ledger)
    requires (forall d :: AgreesAt(index, ledger, d)) && path in index && index[path] > I64_MAX + 1 && path != []
    requires after == Removed(Updated(index, path, U64_MAX + 1 - index[path]), path) && kept == Prune(ledger, path)
    ensures (forall d :: AgreesAt(after, kept, d))
      <==> forall i | 0 < i < |path| :: SizeOr0(index, path[..i]) == index[path]
  {
    var size := index[path];
    forall d
      ensures AgreesAt(after, kept, d) <==> (d != [] && d < path ==> SizeOr0(index, d) == size)
    {
      assert AgreesAt(index, ledger, d) && AgreesAt(index, ledger, path);
      HugeDeleteAt(index, ledger, path, d);
    }
    hide AgreesAt;
    hide Updated;
    hide Removed;
    hide Prune;
    if forall d :: AgreesAt(after, kept, d) {
      forall i | 0 < i < |path| ensures SizeOr0(index, path[..i]) == size {
        assert AgreesAt(after, kept, path[..i]);
      }
    }
    if forall i | 0 < i < |path| :: SizeOr0(index, path[..i]) == size {
      forall d ensures AgreesAt(after, kept, d) {
        assert d != [] && d < path ==> d == path[..|d|];
      }
    }
  }

  lemma HugeDeleteSettles(disk: Disk, ledger: Ledger, path: Path)
    requires Agrees(disk, ledger) && path != [] && SizeOr0(disk.index, path) > I64_MAX + 1
    ensures Agrees(TruncateDirectory(disk, path), Prune(ledger, path)) <==> HugeSettles(disk, path)
  {
    var size := SizeOr0(disk.index, path);
    assert AgreesAt(disk.index, ledger, path);
    TotalSplit(ledger, path);
    HugeAdmitted(disk.cached, disk.limit, size);
    HugeIndexSettles(disk.index, ledger, path, Removed(Updated(disk.index, path, U64_MAX + 1 - size), path),
                     Prune(ledger, path));
    assert [] in Removed(Updated(disk.index, path, U64_MAX + 1 - size), path);
    hide Admits;
    hide Charge;
    hide Freed;
    hide Updated;
    hide Removed;
    hide AgreesAt;
    hide Prune;
    hide Used;
  }

  lemma DeleteDirectorySettles(disk: Disk, ledger: Ledger, path: Path)
    requires Agrees(disk, ledger) && path != []
    ensures Agrees(TruncateDirectory(disk, path), Prune(ledger, path)) <==> Settles(disk, DeleteDirectory(path))
  {
    hide *;
    if SizeOr0(disk.index, path) <= I64_MAX + 1 {
      OrdinaryDeleteSettles(disk, ledger, path);
      OrdinarySettles(disk, path);
    } else {
      HugeDeleteSettles(disk, ledger, path);
      OrdinarySettles(disk, path);
    }
  }

  lemma OrdinarySettles(disk: Disk, path: Path)
    ensures Settles(disk, DeleteDirectory(path))
      <==> SizeOr0(disk.index, path) <= I64_MAX + 1 || HugeSettles(disk, path)
  {
  }

  lemma UsedPruned(ledger: Ledger, at: Path, d: Path)
    requires at <= d
    ensures Used(Prune(ledger, at), d) == 0
  {
    assert Below(Prune(ledger, at), d) == map[];
  }

  lemma ReallocationAdmitted(disk: Disk, oldParent: Path, newParent: Path, bytes: nat)
    requires 0 < bytes <= disk.cached && bytes <= I64_MAX
    ensures var freed := AllocateRaw(disk, oldParent, -(bytes as int));
      && freed.cached == disk.cached - bytes
      && (Admits(freed.cached, disk.limit, bytes) <==> disk.limit == 0 || WrapI64(disk.cached) <= disk.limit)
      && RenameFile(disk, oldParent, newParent, bytes)
         == if disk.limit == 0 || WrapI64(disk.cached) <= disk.limit then AllocateRaw(freed, newParent, bytes)
            else freed
  {
    hide Updated;
    SmallSizes(bytes);
    WrapTwice(disk.cached - bytes, bytes);
    hide WrapI64;
    hide Freed;
  }

  // A file move goes through the quota gate again, so the bytes drop out of the accounts exactly when the
  // counter, as a signed number, stood above a nonzero limit.
  lemma MoveFileSettles(disk: Disk, ledger: Ledger, oldParent: Path, newParent: Path, bytes: nat)
    requires Agrees(disk, ledger) && bytes <= Charged(ledger, oldParent) && bytes <= I64_MAX
    ensures Agrees(RenameFile(disk, oldParent, newParent, bytes),
                   Credit(Debit(ledger, oldParent, bytes), newParent, bytes))
      <==> Settles(disk, MoveFile(oldParent, newParent, bytes))
  {
    var freed, debited := AllocateRaw(disk, oldParent, -(bytes as int)), Debit(ledger, oldParent, bytes);
    if bytes == 0 {
      SmallSizes(0);
    } else {
      TotalSet(ledger, oldParent, Charged(ledger, oldParent) - bytes);
      assert disk.cached == Total(ledger) && Total(debited) + bytes == Total(ledger);
      assert Charged(ledger, oldParent) <= Total(ledger);
      hide *;
      FreeSettles(disk, ledger, oldParent, bytes);
      ReallocationAdmitted(disk, oldParent, newParent, bytes);
      ReallocationSettles(freed, debited, newParent, bytes);
    }
  }

  lemma ReallocationSettles(freed: Disk, debited: Ledger, newParent: Path, bytes: nat)
    requires Agrees(freed, debited) && Total(debited) + bytes <= U64_MAX && 0 < bytes <= I64_MAX
    ensures Agrees(AllocateRaw(freed, newParent, bytes), Credit(debited, newParent, bytes))
      <==> Admits(freed.cached, freed.limit, bytes)
  {
    var moved := Credit(debited, newParent, bytes);
    TotalSet(debited, newParent, Charged(debited, newParent) + bytes);
    hide Agrees;
    hide Updated;
    AllocateSettles(freed, debited, newParent, bytes);
  }

  // A directory move settles exactly when nothing but the directory itself was recorded at its target.
  lemma MoveDirectorySettles(disk: Disk, ledger: Ledger, from: Path, to: Path)
    requires Agrees(disk, ledger) && Total(ledger) <= U64_MAX && Truthful(ledger, MoveDirectory(from, to))
    ensures Agrees(RenameDirectory(disk, from, to), Moved(ledger, from, to))
      <==> Settles(disk, MoveDirectory(from, to))
  {
    var index, moved, kept := disk.index, Moved(ledger, from, to), Prune(ledger, from);
    hide Moved;
    hide Used;
    hide Prune;
    hide Relocated;
    assert AgreesAt(index, ledger, from) && AgreesAt(index, ledger, to);
    UsedMoved(ledger, from, to, to);
    if from !in index {
      forall d ensures AgreesAt(index, moved, d) {
        assert AgreesAt(index, ledger, d);
        UsedMoved(ledger, from, to, d);
        UsedSplit(ledger, from, d);
        if from <= d {
          UsedPruned(ledger, from, d);
          UsedMonotone(ledger, d, from);
        }
        if to <= d {
          UsedMonotone(ledger, from + d[|to|..], from);
        }
      }
    } else {
      var after := Relocated(index, from, to);
      forall d | d != []
        ensures SizeOr0(after, d) == Used(moved, d) - (if to <= d then Used(kept, d) else 0)
      {
        assert AgreesAt(index, ledger, d);
        UsedMoved(ledger, from, to, d);
        UsedMonotone(moved, d, d);
        RelocatedSize(index, from, to, d);
        if to <= d {
          assert AgreesAt(index, ledger, from + d[|to|..]) && from + d[|to|..] != [];
          assert d <= to ==> from + d[|to|..] == from;
        } else {
          UsedSplit(ledger, from, d);
          if from <= d {
            UsedPruned(ledger, from, d);
          } else {
            assert d <= from <==> d < from;
          }
          assert d <= to <==> d < to;
        }
      }
      UsedSplit(ledger, from, to);
      RelocatedSize(index, from, to, to);
      assert to[|to|..] == [] && from + [] == from;
      if Used(kept, to) == 0 {
        forall d ensures AgreesAt(after, moved, d) {
          if to <= d {
            UsedMonotone(kept, d, to);
          }
        }
      } else {
        assert !AgreesAt(after, moved, to);
      }
    }
  }

  // No sum of recorded bytes overflows.
  ghost predicate Bounded(ledger: Ledger, op: Operation) {
    Total(ledger) + (if op.Allocate? then op.bytes else 0) <= U64_MAX
  }

  // One operation keeps the agreement exactly when its guard holds.
  lemma StepSettles(disk: Disk, ledger: Ledger, op: Operation)
    requires Agrees(disk, ledger) && Representable(op) && Truthful(ledger, op) && Bounded(ledger, op)
    ensures Agrees(Apply(disk, op), Posted(disk, ledger, op)) <==> Settles(disk, op)
  {
    match op
    case Allocate(dir, bytes) => AllocateSettles(disk, ledger, dir, bytes);
    case Free(dir, bytes) => FreeSettles(disk, ledger, dir, bytes);
    case DeleteFile(path, bytes) => DeleteFileSettles(disk, ledger, path, bytes);
    case DeleteDirectory(path) => DeleteDirectorySettles(disk, ledger, path);
    case MoveFile(oldParent, newParent, bytes) => MoveFileSettles(disk, ledger, oldParent, newParent, bytes);
    case MoveDirectory(from, to) => MoveDirectorySettles(disk, ledger, from, to);
    case DeleteEverything => EverythingSettles(disk);
  }

  lemma EverythingSettles(disk: Disk)
    ensures Agrees(TruncateRoot(disk), map[])
  {
    forall d ensures AgreesAt(TruncateRoot(disk).index, map[], d) {
      assert Below(map[], d) == map[];
    }
  }

  // Every operation of the run can happen in the state it meets.
  ghost predicate Possible(disk: Disk, ledger: Ledger, ops: seq<Operation>)
    decreases |ops|
  {
    ops == []
    || (&& Representable(ops[0]) && Truthful(ledger, ops[0]) && Bounded(ledger, ops[0])
        && Possible(Apply(disk, ops[0]), Posted(disk, ledger, ops[0]), ops[1..]))
  }

  ghost predicate SettlesThroughout(disk: Disk, ledger: Ledger, ops: seq<Operation>)
    requires Possible(disk, ledger, ops)
    decreases |ops|
  {
    ops == []
    || (&& Settles(disk, ops[0])
        && SettlesThroughout(Apply(disk, ops[0]), Posted(disk, ledger, ops[0]), ops[1..]))
  }

  // The accounts agree with the ledger now and after every operation of the run.
  ghost predicate AgreesThroughout(disk: Disk, ledger: Ledger, ops: seq<Operation>)
    requires Possible(disk, ledger, ops)
    decreases |ops|
  {
    && Agrees(disk, ledger)
    && (ops == [] || AgreesThroughout(Apply(disk, ops[0]), Posted(disk, ledger, ops[0]), ops[1..]))
  }

  // Main result: a run keeps index, counter and ledger together in every state exactly when every operation
  // meets its guard.
  lemma {:induction false} RunAgrees(disk: Disk, ledger: Ledger, ops: seq<Operation>)
    requires Agrees(disk, ledger) && Possible(disk, ledger, ops)
    ensures AgreesThroughout(disk, ledger, ops) <==> SettlesThroughout(disk, ledger, ops)
    decreases |ops|
  {
    hide Agrees;
    hide Settles;
    hide Apply;
    hide Posted;
    if ops != [] {
      StepSettles(disk, ledger, ops[0]);
      if Settles(disk, ops[0]) {
        RunAgrees(Apply(disk, ops[0]), Posted(disk, ledger, ops[0]), ops[1..]);
      } else {
        var after, posted, rest := Apply(disk, ops[0]), Posted(disk, ledger, ops[0]), ops[1..];
        assert AgreesThroughout(disk, ledger, ops) ==> AgreesThroughout(after, posted, rest);
        assert AgreesThroughout(after, posted, rest) ==> Agrees(after, posted);
      }
    }
  }

  // A directory that holds a byte, and below it one that grows too large for its delta and is deleted.
  function HugeRun(a: Name, b: Name): seq<Operation> {
    [Allocate([a], 1)] + ([Allocate([a, b], I64_MAX)] + ([Allocate([a, b], 2)] + [DeleteDirectory([a, b])]))
  }

  // One allocation at the head of a run on a disk without a limit.
  lemma AllocateFirst(disk: Disk, ledger: Ledger, dir: Path, bytes: nat, rest: seq<Operation>)
    requires Agrees(disk, ledger) && disk.limit == 0 && Total(ledger) + bytes <= U64_MAX && 0 < bytes <= I64_MAX
    ensures var ops, after, credited :=
        [Allocate(dir, bytes)] + rest, AllocateRaw(disk, dir, bytes), Credit(ledger, dir, bytes);
      && Agrees(after, credited) && after.limit == 0 && Total(credited) == Total(ledger) + bytes
      && (Possible(disk, ledger, ops) <==> Possible(after, credited, rest))
      && (Possible(disk, ledger, ops) ==>
            (SettlesThroughout(disk, ledger, ops) <==> SettlesThroughout(after, credited, rest)))
  {
    var ops := [Allocate(dir, bytes)] + rest;
    assert ops[0] == Allocate(dir, bytes) && ops[1..] == rest;
    AllocateSettles(disk, ledger, dir, bytes);
    CreditedUsed(ledger, dir, bytes, dir);
    hide Agrees;
    hide Credit;
    hide Used;
    hide Total;
    hide Updated;
  }

  // What the three allocations leave behind.
  lemma HugeRunStarts(a: Name, b: Name) returns (disk: Disk, ledger: Ledger)
    ensures var start, rest := Disk(map[[] := 0], 0, 0), [DeleteDirectory([a, b])];
      && (Possible(start, map[], HugeRun(a, b)) <==> Possible(disk, ledger, rest))
      && (Possible(start, map[], HugeRun(a, b)) ==>
            (SettlesThroughout(start, map[], HugeRun(a, b)) <==> SettlesThroughout(disk, ledger, rest)))
    ensures Agrees(disk, ledger) && disk.limit == 0 && Total(ledger) == I64_MAX + 3
    ensures Used(ledger, [a, b]) == I64_MAX + 2 && Used(ledger, [a]) == I64_MAX + 3
  {
    var start: Disk := Disk(map[[] := 0], 0, 0);
    var one := Credit(map[], [a], 1);
    var two := Credit(one, [a, b], I64_MAX);
    ledger := Credit(two, [a, b], 2);
    var first := AllocateRaw(start, [a], 1);
    var second := AllocateRaw(first, [a, b], I64_MAX);
    disk := AllocateRaw(second, [a, b], 2);
    assert [a] <= [a, b] && !([a, b] <= [a]);
    hide *;
    forall d ensures Used(ledger, d)
      == (if d <= [a] then 1 else 0) + (if d <= [a, b] then I64_MAX else 0) + (if d <= [a, b] then 2 else 0)
    {
      NothingUsed(d);
      CreditedUsed(map[], [a], 1, d);
      CreditedUsed(one, [a, b], I64_MAX, d);
      CreditedUsed(two, [a, b], 2, d);
    }
    NothingUsed([]);
    EmptyAgrees(0);
    var delete := [DeleteDirectory([a, b])];
    AllocateFirst(start, map[], [a], 1, [Allocate([a, b], I64_MAX)] + ([Allocate([a, b], 2)] + delete));
    AllocateFirst(first, one, [a, b], I64_MAX, [Allocate([a, b], 2)] + delete);
    AllocateFirst(second, two, [a, b], 2, delete);
  }

  lemma CreditedUsed(ledger: Ledger, dir: Path, bytes: nat, d: Path)
    requires bytes > 0
    ensures Used(Credit(ledger, dir, bytes), d) == Used(ledger, d) + if d <= dir then bytes else 0
    ensures Total(Credit(ledger, dir, bytes)) == Total(ledger) + bytes
  {
    UsedSet(ledger, dir, Charged(ledger, dir) + bytes, d);
    TotalSet(ledger, dir, Charged(ledger, dir) + bytes);
  }

  // The guard of a delete is not idle: without a limit, and from a new file system, the accounts can be lost.
  lemma HugeDeleteFails(a: Name, b: Name)
    ensures var start, ops := Disk(map[[] := 0], 0, 0), HugeRun(a, b);
      Possible(start, map[], ops) && !AgreesThroughout(start, map[], ops)
  {
    var disk, ledger := HugeRunStarts(a, b);
    HugeDeleteUnsettled(disk, ledger, a, b);
    EmptyAgrees(0);
    hide *;
    RunAgrees(Disk(map[[] := 0], 0, 0), map[], HugeRun(a, b));
  }

  lemma {:induction false} HugeDeleteUnsettled(disk: Disk, ledger: Ledger, a: Name, b: Name)
    requires Agrees(disk, ledger) && Total(ledger) <= U64_MAX
    requires Used(ledger, [a, b]) > I64_MAX + 1 && Used(ledger, [a]) != Used(ledger, [a, b])
    ensures Possible(disk, ledger, [DeleteDirectory([a, b])])
    ensures !SettlesThroughout(disk, ledger, [DeleteDirectory([a, b])])
  {
    var ops := [DeleteDirectory([a, b])];
    assert ops[1..] == [];
    assert AgreesAt(disk.index, ledger, [a, b]) && AgreesAt(disk.index, ledger, [a]);
    assert [a, b][..1] == [a];
    hide Used;
    hide Apply;
    hide Posted;
  }

  // A new file system agrees with an empty ledger.
  lemma EmptyAgrees(limit: i64)
    ensures Agrees(Disk(map[[] := 0], 0, limit), map[])
  {
    EverythingSettles(Disk(map[[] := 0], 0, limit));
  }

  // The sizes of the top-level entries.
  ghost function TopLevel(index: Index): Ledger {
    map p | p in index && |p| == 1 :: index[p]
  }

  // The counter is the root's own bytes plus the top-level entries.
  lemma CounterIsTopLevel(disk: Disk, ledger: Ledger)
    requires Agrees(disk, ledger)
    ensures disk.cached == Charged(ledger, []) + Total(TopLevel(disk.index))
  {
    var tops := TopLevel(disk.index);
    forall p: Path | |p| == 1 ensures Charged(tops, p) == Used(ledger, p) {
      assert AgreesAt(disk.index, ledger, p);
    }
    TotalByTopLevel(ledger, tops);
  }

  lemma {:induction false} TotalByTopLevel(ledger: Ledger, tops: Ledger)
    requires forall p | p in tops :: |p| == 1
    requires forall p: Path | |p| == 1 :: Charged(tops, p) == Used(ledger, p)
    ensures Total(ledger) == Charged(ledger, []) + Total(tops)
    decreases |tops|
  {
    hide Used;
    if tops == map[] {
      forall p | p in ledger && p != [] ensures ledger[p] == 0 {
        assert p[..1] <= p && Charged(tops, p[..1]) == 0;
        UsedSet(ledger, p, ledger[p], p[..1]);
      }
      ZeroTotal(ledger);
    } else {
      var top :| top in tops;
      var rest := Prune(ledger, top);
      forall p: Path | |p| == 1 ensures Charged(tops - {top}, p) == Used(rest, p) {
        UsedSplit(ledger, top, p);
        if p == top { UsedPruned(ledger, top, p); }
        assert p <= top || top <= p ==> p == top;
      }
      TotalByTopLevel(rest, tops - {top});
      TotalWithout(tops, top);
      TotalSplit(ledger, top);
      assert Charged(tops, top) == Used(ledger, top) && !(top <= []);
    }
  }

  lemma {:induction false} ZeroTotal(ledger: Ledger)
    requires forall p | p in ledger && p != [] :: ledger[p] == 0
    ensures Total(ledger) == Charged(ledger, [])
    decreases |ledger|
  {
    if ledger != map[] {
      var p :| p in ledger;
      TotalWithout(ledger, p);
      ZeroTotal(ledger - {p});
    }
  }

  // Taking a directory off and putting it back where it was restores every size but the root's own, exactly
  // when every directory above it was recorded with at least its size.
  lemma RelocateInPlace(index: Index, path: Path)
    requires path != [] && path in index
    ensures (forall d | d != [] :: SizeOr0(Relocated(index, path, path), d) == SizeOr0(index, d))
      <==> forall d | d != [] && d < path :: SizeOr0(index, d) >= index[path]
  {
    hide Relocated;
    forall d | d != []
      ensures SizeOr0(Relocated(index, path, path), d) == SizeOr0(index, d)
        <==> (d < path ==> SizeOr0(index, d) >= index[path])
    {
      RelocatedSize(index, path, path, d);
      if path <= d {
        assert path + d[|path|..] == d;
      }
    }
  }

  // From within the limit, one call of the gate leaves the counter within it exactly when a positive delta
  // adds up to a signed 64-bit number: a sum past that wraps to a negative one, which any limit admits.
  lemma GateStays(disk: Disk, path: Path, delta: i64)
    requires 0 < disk.limit && disk.cached <= disk.limit
    ensures AllocateRaw(disk, path, delta).cached <= disk.limit <==> (delta > 0 ==> disk.cached + delta <= I64_MAX)
    ensures AllocateRaw(disk, path, delta).limit == disk.limit
    ensures delta <= 0 ==> AllocateRaw(disk, path, delta).cached <= disk.cached
  {
    hide Updated;
    SmallSizes(disk.cached);
    if delta > 0 && disk.cached + delta <= I64_MAX {
      SmallSizes(disk.cached + delta);
    } else if delta > 0 {
      assert WrapI64(disk.cached + delta) == disk.cached + delta - U64_MAX - 1;
    }
  }

  // An accepted allocation leaves the counter within the limit exactly when it stays representable; a refused
  // one changes nothing.
  lemma AllocationWithinLimit(disk: Disk, path: Path, bytes: nat)
    requires 0 < disk.limit && disk.cached <= disk.limit && 0 < bytes <= I64_MAX
    ensures AllocateRaw(disk, path, bytes).cached <= disk.limit <==> disk.cached + bytes <= I64_MAX
    ensures disk.cached + bytes <= I64_MAX ==>
      AllocateRaw(disk, path, bytes)
      == if disk.cached + bytes > disk.limit then disk
         else Disk(Updated(disk.index, path, bytes), disk.cached + bytes, disk.limit)
  {
    GateStays(disk, path, bytes);
    SmallSizes(disk.cached);
    if disk.cached + bytes <= I64_MAX {
      SmallSizes(disk.cached + bytes);
    }
    hide Updated;
  }

  // The gate, for every counter, limit and delta: it refuses exactly a positive delta whose sum, which a signed
  // 64-bit number of 2^63 or more turns into a negative one, is past a nonzero limit, negative limits included.
  // A refused delta changes nothing and neither does zero; any other moves the counter by the delta, round past
  // 2^64 and no further down than zero.
  lemma GateExactly(disk: Disk, path: Path, delta: i64)
    ensures var sum := disk.cached + delta;
      var seen := if sum > 0x7FFF_FFFF_FFFF_FFFF then sum - 0x1_0000_0000_0000_0000 else sum;
      && (Admits(disk.cached, disk.limit, delta) <==> !(delta > 0 && disk.limit != 0 && seen > disk.limit))
      && AllocateRaw(disk, path, delta)
         == (if delta == 0 || (delta > 0 && disk.limit != 0 && seen > disk.limit) then disk
             else Disk(Updated(disk.index, path, delta),
                       if sum < 0 then 0
                       else if sum > 0xFFFF_FFFF_FFFF_FFFF then sum - 0x1_0000_0000_0000_0000
                       else sum,
                       disk.limit))
  {
    if delta > 0 {
      SumSeen(disk.cached, delta);
    }
    hide Updated;
    hide WrapI64;
    hide WrapU64;
  }

  lemma SumSeen(cached: u64, delta: i64)
    requires delta > 0
    ensures var sum := cached + delta;
      && WrapI64(WrapI64(cached) + delta)
         == (if sum > 0x7FFF_FFFF_FFFF_FFFF then sum - 0x1_0000_0000_0000_0000 else sum)
      && WrapU64(sum) == if sum > 0xFFFF_FFFF_FFFF_FFFF then sum - 0x1_0000_0000_0000_0000 else sum
  {
    WrapTwice(cached, delta);
  }

  // Deleting a directory recorded with no bytes leaves index and counter as they are; any other leaves nothing
  // recorded at or below it.
  lemma DeleteRecords(disk: Disk, path: Path, p: Path)
    requires Rooted(disk.index) && path != [] && path <= p
    ensures SizeOr0(disk.index, path) == 0 ==> TruncateDirectory(disk, path) == disk
    ensures SizeOr0(disk.index, path) > 0 ==> p !in TruncateDirectory(disk, path).index
  {
    var size := SizeOr0(disk.index, path);
    FreedIs(size);
    UpdatedClamped(disk.index, path, Freed(size), path);
    RemovedClamped(AllocateRaw(disk, path, Freed(size)).index, path, p);
    hide Updated;
    hide Removed;
    hide Freed;
    hide Clamped;
  }

  lemma RootKept(disk: Disk, path: Path, delta: i64)
    ensures SizeOr0(AllocateRaw(disk, path, delta).index, []) == SizeOr0(disk.index, [])
  {
    hide Admits;
    UpdatedClamped(disk.index, path, delta, []);
    hide Updated;
    hide Clamped;
  }

  lemma RootKeptByDelete(disk: Disk, path: Path)
    ensures SizeOr0(TruncateDirectory(disk, path).index, []) == SizeOr0(disk.index, [])
  {
    var freed := AllocateRaw(disk, path, Freed(SizeOr0(disk.index, path)));
    RootKept(disk, path, Freed(SizeOr0(disk.index, path)));
    RemovedClamped(freed.index, path, []);
    hide Freed;
    hide AllocateRaw;
    hide Removed;
    hide Clamped;
  }

  // The root's own size is no sum of what is below it: only a move of a recorded directory changes it, by all of
  // that directory's size, wherever it was and wherever it goes.
  lemma RootSizeMoved(disk: Disk, op: Operation)
    requires Representable(op) && (op.MoveDirectory? ==> op.from != [] && op.to != [])
    ensures SizeOr0(Apply(disk, op).index, [])
      == if op.MoveDirectory? && op.from in disk.index
         then Clamped(SizeOr0(disk.index, []) + disk.index[op.from])
         else SizeOr0(disk.index, [])
  {
    hide AllocateRaw;
    hide Freed;
    hide WrapI64;
    hide RenameDirectory;
    hide TruncateDirectory;
    hide Added;
    hide Removed;
    hide Subtree;
    hide Clamped;
    match op
    case Allocate(dir, bytes) => RootKept(disk, dir, bytes);
    case Free(dir, bytes) => RootKept(disk, dir, -(bytes as int));
    case DeleteFile(path, bytes) => RootKept(disk, path, Freed(bytes));
    case DeleteDirectory(path) => RootKeptByDelete(disk, path);
    case MoveFile(oldParent, newParent, bytes) =>
      RootKept(disk, oldParent, Freed(bytes));
      RootKept(AllocateRaw(disk, oldParent, Freed(bytes)), newParent, WrapI64(bytes));
    case MoveDirectory(from, to) =>
      RenameDirectoryIs(disk, from, to);
      RemovedClamped(disk.index, from, []);
      if from in disk.index {
        var sub := Subtree(disk.index, from);
        assert from + [] == from && [] in sub && sub[[]] == disk.index[from];
        AddedClamped(Removed(disk.index, from), to, sub, []);
        assert RenameDirectory(disk, from, to).index == Added(Removed(disk.index, from), to, sub);
      } else {
        assert RenameDirectory(disk, from, to).index == Removed(disk.index, from);
      }
    case DeleteEverything =>
  }

  // What the operation asks the gate for adds up to a signed 64-bit number. A directory recorded with a size
  // past the signed numbers asks for bytes where it should free them.
  ghost predicate Fits(disk: Disk, op: Operation) {
    match op
    case Allocate(_, bytes) => bytes == 0 || disk.cached + bytes <= I64_MAX
    case DeleteDirectory(path) =>
      Freed(SizeOr0(disk.index, path)) <= 0 || disk.cached + Freed(SizeOr0(disk.index, path)) <= I64_MAX
    case _ => true
  }

  predicate AllRepresentable(ops: seq<Operation>) {
    forall op | op in ops :: Representable(op)
  }

  ghost predicate FitsThroughout(disk: Disk, ops: seq<Operation>)
    requires AllRepresentable(ops)
    decreases |ops|
  {
    ops == [] || (Fits(disk, ops[0]) && FitsThroughout(Apply(disk, ops[0]), ops[1..]))
  }

  // The counter is within the limit now and after every operation of the run.
  ghost predicate WithinThroughout(disk: Disk, ops: seq<Operation>)
    requires AllRepresentable(ops)
    decreases |ops|
  {
    disk.cached <= disk.limit && (ops == [] || WithinThroughout(Apply(disk, ops[0]), ops[1..]))
  }

  lemma StepWithinLimit(disk: Disk, op: Operation)
    requires 0 < disk.limit && disk.cached <= disk.limit && Representable(op)
    ensures Apply(disk, op).cached <= disk.limit <==> Fits(disk, op)
    ensures Apply(disk, op).limit == disk.limit
  {
    hide AllocateRaw;
    match op
    case Allocate(dir, bytes) => GateStays(disk, dir, bytes);
    case Free(dir, bytes) => GateStays(disk, dir, -(bytes as int));
    case DeleteFile(path, bytes) =>
      SmallSizes(bytes);
      GateStays(disk, path, Freed(bytes));
    case DeleteDirectory(path) => GateStays(disk, path, Freed(SizeOr0(disk.index, path)));
    case MoveFile(oldParent, newParent, bytes) =>
      SmallSizes(bytes);
      FreedFirst(disk, oldParent, bytes);
      GateStays(disk, oldParent, Freed(bytes));
      GateStays(AllocateRaw(disk, oldParent, Freed(bytes)), newParent, WrapI64(bytes));
    case _ =>
  }

  // A file's bytes, freed before they are asked for again, leave room for themselves.
  lemma FreedFirst(disk: Disk, path: Path, bytes: nat)
    requires bytes <= I64_MAX && disk.cached <= I64_MAX
    ensures AllocateRaw(disk, path, Freed(bytes)).cached + bytes <= I64_MAX
  {
    SmallSizes(bytes);
    hide Updated;
  }

  // Main result: from within a nonzero limit, a run of allocations, frees, deletes and moves keeps the counter
  // within it in every state exactly when every sum it asks the gate for fits a signed 64-bit number.
  lemma {:induction false} RunWithinLimit(disk: Disk, ops: seq<Operation>)
    requires 0 < disk.limit && disk.cached <= disk.limit && AllRepresentable(ops)
    ensures WithinThroughout(disk, ops) <==> FitsThroughout(disk, ops)
    decreases |ops|
  {
    hide Apply;
    hide Fits;
    if ops != [] {
      assert ops[0] in ops;
      var after := Apply(disk, ops[0]);
      StepWithinLimit(disk, ops[0]);
      if Fits(disk, ops[0]) {
        RunWithinLimit(after, ops[1..]);
      } else {
        assert WithinThroughout(after, ops[1..]) ==> after.cached <= after.limit;
      }
    }
  }
}
