/** Disk accounting: the size index, the cached counter and the quota gate of one server's file system. */
module Filesystems {
  import opened Basics
  import opened PathMaps
  import opened DiskIndex

  // The accounting state of a file system.
  datatype Disk = Disk(index: Index, cached: u64, limit: i64)

  function WrapI64(n: int): i64 {
    (n + I64_MAX + 1) % (U64_MAX + 1) - I64_MAX - 1
  }

  function WrapU64(n: int): u64 {
    n % (U64_MAX + 1)
  }

  // What freeing a file or directory of this size passes as its delta.
  function Freed(size: u64): i64 {
    WrapI64(-(WrapI64(size) as int))
  }

  lemma SmallSizes(n: u64)
    requires n <= I64_MAX
    ensures WrapI64(n) == n && Freed(n) == -(n as int)
  {
  }

  lemma WrapTwice(n: int, delta: int)
    ensures WrapI64(WrapI64(n) + delta) == WrapI64(n + delta)
  {
  }

  // A size of more than 2^63 turns into a positive delta.
  lemma FreedIs(n: u64)
    ensures Freed(n) == if n <= I64_MAX + 1 then -(n as int) else U64_MAX + 1 - n
  {
  }

  // The quota gate lets `delta` through.
  predicate Admits(cached: u64, limit: i64, delta: i64) {
    delta > 0 && limit != 0 ==> WrapI64(WrapI64(cached) + delta) <= limit
  }

  function Charge(cached: u64, delta: i64): u64 {
    if delta > 0 then WrapU64(cached + delta) else SatSub(cached, -(delta as int))
  }

  ghost function AllocateRaw(disk: Disk, path: Path, delta: i64): Disk {
    if delta == 0 || !Admits(disk.cached, disk.limit, delta) then disk
    else Disk(Updated(disk.index, path, delta), Charge(disk.cached, delta), disk.limit)
  }

  ghost function TruncateFile(disk: Disk, path: Path, length: u64): Disk {
    AllocateRaw(disk, path, Freed(length))
  }

  ghost function TruncateDirectory(disk: Disk, path: Path): Disk {
    var size := SizeOr0(disk.index, path);
    var freed := AllocateRaw(disk, path, Freed(size));
    if size > 0 then freed.(index := Removed(freed.index, path)) else freed
  }

  ghost function RenameFile(disk: Disk, oldParent: Path, newParent: Path, length: u64): Disk {
    AllocateRaw(AllocateRaw(disk, oldParent, Freed(length)), newParent, WrapI64(length))
  }

  ghost function RenameDirectory(disk: Disk, from: Path, to: Path): Disk {
    if from == [] || from !in disk.index then disk
    else disk.(index := Relocated(disk.index, from, to))
  }

  lemma RenameDirectoryIs(disk: Disk, from: Path, to: Path)
    ensures from in disk.index ==> [] in Subtree(disk.index, from)
    ensures RenameDirectory(disk, from, to)
      == disk.(index := if from != [] && from in disk.index
                        then Added(Removed(disk.index, from), to, Subtree(disk.index, from))
                        else Removed(disk.index, from))
  {
    assert from + [] == from;
    hide Removed;
    hide Added;
    hide Subtree;
  }

  ghost function TruncateRoot(disk: Disk): Disk {
    Disk(map[[] := SizeOr0(disk.index, [])], 0, disk.limit)
  }

  class Filesystem {
    var diskLimit: i64
    var diskUsageCached: u64
    var diskUsage: DiskUsage
    ghost var shape: Shape

    ghost predicate Valid()
      reads this, shape.nodes.Values
    {
      diskUsage.Fits(shape)
    }

    ghost function Accounts(): Disk
      reads this
    {
      Disk(shape.sizes, diskUsageCached, diskLimit)
    }

    constructor (limit: i64)
      ensures Valid() && fresh(shape.nodes.Values)
      ensures Accounts() == Disk(map[[] := 0], 0, limit)
    {
      diskLimit, diskUsageCached := limit, 0;
      var usage := new DiskUsage();
      diskUsage := usage;
      shape := Shape(map[[] := usage], map[[] := 0]);
    }

    method AllocateInPathRaw(path: Path, delta: i64) returns (granted: bool)
      requires Valid()
      modifies this`diskUsageCached, this`shape, shape.nodes.Values
      ensures Valid() && fresh(shape.nodes.Values - old(shape.nodes.Values))
      ensures granted <==> delta == 0 || Admits(old(diskUsageCached), diskLimit, delta)
      ensures Accounts() == AllocateRaw(old(Accounts()), path, delta)
    {
      hide Updated;
      hide DiskUsage.Fits;
      hide WrapI64;
      hide WrapU64;
      if delta == 0 {
        return true;
      }
      if delta > 0 {
        var currentUsage := WrapI64(diskUsageCached);
        if diskLimit != 0 && WrapI64(currentUsage + delta) > diskLimit {
          return false;
        }
      }
      if delta > 0 {
        diskUsageCached := WrapU64(diskUsageCached + delta);
      } else {
        var absSize := -(delta as int);
        var current := diskUsageCached;
        if current >= absSize {
          diskUsageCached := current - absSize;
        } else {
          diskUsageCached := 0;
        }
      }
      shape := diskUsage.UpdateSize(path, delta, shape);
      granted := true;
    }

    // `get_size(path).unwrap_or(0)` under the read lock.
    function RecordedSize(path: Path): (size: u64)
      requires Valid()
      reads this, shape.nodes.Values
      ensures size == SizeOr0(shape.sizes, path)
    {
      assert shape.nodes[[]] == diskUsage && [] + path == path;
      match diskUsage.GetSize(path, diskUsage, shape, [])
      case Some(recorded) => recorded
      case None => 0
    }

    method TruncatePath(path: Path, isDirectory: bool, length: u64)
      requires Valid()
      modifies this`diskUsageCached, this`shape, shape.nodes.Values
      ensures Valid() && fresh(shape.nodes.Values - old(shape.nodes.Values))
      ensures Accounts() == if isDirectory then TruncateDirectory(old(Accounts()), path)
                            else TruncateFile(old(Accounts()), path, length)
    {
      hide AllocateRaw;
      hide Removed;
      var size := if isDirectory then RecordedSize(path) else length;
      var _ := AllocateInPathRaw(path, Freed(size));
      if isDirectory && size > 0 {
        var _, _ := DetachDirectory(path);
      }
    }

    // `remove_path` under the write lock.
    method DetachDirectory(path: Path) returns (removed: Option<DiskUsage>, ghost sub: Shape)
      requires Valid()
      modifies this`shape, shape.nodes.Values
      ensures Valid() && shape.nodes.Values <= old(shape.nodes.Values)
      ensures shape.sizes == Removed(old(shape.sizes), path)
      ensures removed.Some? <==> path != [] && path in old(shape.sizes)
      ensures removed.Some? ==>
        && removed.value.Fits(sub) && sub.sizes == Subtree(old(shape.sizes), path)
        && sub.nodes.Values <= old(shape.nodes.Values) && sub.nodes.Values !! shape.nodes.Values
    {
      hide Removed;
      removed, shape, sub := diskUsage.RemovePath(path, shape);
    }

    // `add_directory` under the write lock.
    method AttachDirectory(to: Path, source: DiskUsage, ghost sub: Shape)
      requires Valid() && source.Fits(sub) && shape.nodes.Values !! sub.nodes.Values
      modifies this`shape, shape.nodes.Values
      ensures Valid() && fresh(shape.nodes.Values - old(shape.nodes.Values) - sub.nodes.Values)
      ensures shape.sizes == Added(old(shape.sizes), to, sub.sizes)
    {
      hide Added;
      var added;
      added, shape := diskUsage.AddDirectory(to, source, shape, sub);
    }

    // The directory branch of a rename: both index calls under one write lock.
    method MoveDirectory(from: Path, to: Path)
      requires Valid()
      modifies this`shape, shape.nodes.Values
      ensures Valid() && fresh(shape.nodes.Values - old(shape.nodes.Values))
      ensures Accounts() == RenameDirectory(old(Accounts()), from, to)
    {
      hide DiskUsage.Fits;
      hide RenameDirectory;
      hide Added;
      hide Removed;
      hide Subtree;
      RenameDirectoryIs(Accounts(), from, to);
      var removed;
      ghost var sub;
      removed, sub := DetachDirectory(from);
      if removed.Some? {
        assert shape.nodes.Values !! sub.nodes.Values;
        AttachDirectory(to, removed.value, sub);
      }
    }

    method RenamePath(isDirectory: bool, from: Path, to: Path, oldParent: Path, newParent: Path, length: u64)
      requires Valid()
      modifies this`diskUsageCached, this`shape, shape.nodes.Values
      ensures Valid() && fresh(shape.nodes.Values - old(shape.nodes.Values))
      ensures Accounts() == if isDirectory then RenameDirectory(old(Accounts()), from, to)
                            else RenameFile(old(Accounts()), oldParent, newParent, length)
    {
      hide AllocateRaw;
      hide RenameDirectory;
      if isDirectory {
        MoveDirectory(from, to);
      } else {
        var _ := AllocateInPathRaw(oldParent, Freed(length));
        var _ := AllocateInPathRaw(newParent, WrapI64(length));
      }
    }

    // Swaps in a freshly scanned index and its total.
    method Replace(usage: DiskUsage, ghost s: Shape, total: u64)
      requires usage.Fits(s)
      modifies this`diskUsage, this`shape, this`diskUsageCached
      ensures Valid() && shape == s && Accounts() == Disk(s.sizes, total, diskLimit)
    {
      diskUsage, shape, diskUsageCached := usage, s, total;
    }

    method ClearAll()
      requires Valid()
      modifies this`diskUsageCached, this`shape, shape.nodes.Values
      ensures Valid() && fresh(shape.nodes.Values - old(shape.nodes.Values))
      ensures Accounts() == TruncateRoot(old(Accounts()))
    {
      assert diskUsage in shape.nodes.Values by { assert shape.nodes[[]] == diskUsage; }
      shape := diskUsage.Clear(shape);
      diskUsageCached := 0;
    }
  }
}
