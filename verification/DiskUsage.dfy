/** The nested directory-size index, and the flat map it stands for. */
module DiskIndex {
  import opened Basics
  import opened PathMaps

  const U64_MAX: int := 0xFFFF_FFFF_FFFF_FFFF
  const I64_MAX: int := 0x7FFF_FFFF_FFFF_FFFF

  type u64 = n: int | 0 <= n <= U64_MAX
  type i64 = n: int | -I64_MAX - 1 <= n <= I64_MAX

  // The size stored at each recorded path; [] holds the index root's own size field.
  type Index = map<Path, u64>

  function SatAdd(a: u64, b: u64): u64 {
    if a + b <= U64_MAX then a + b else U64_MAX
  }

  function SatSub(a: u64, b: u64): u64 {
    if a >= b then a - b else 0
  }

  function Bump(size: u64, delta: i64): u64 {
    if delta >= 0 then SatAdd(size, delta) else SatSub(size, -(delta as int))
  }

  function SizeOr0(index: Index, p: Path): u64 {
    if p in index then index[p] else 0
  }

  // Every non-empty prefix of `path` moves by `delta`, created at zero where it is missing.
  ghost function Updated(index: Index, path: Path, delta: i64): Index {
    map p | p in index.Keys + Prefixes(path) ::
      if p in Prefixes(path) then Bump(SizeOr0(index, p), delta) else index[p]
  }

  // `target` and all below it go; the directories strictly between `from` and `target` lose its size.
  ghost function Detached(index: Index, from: Path, target: Path): Index
    requires target in index
  {
    map p | p in index && !(target <= p) ::
      if from < p && p < target then SatSub(index[p], index[target]) else index[p]
  }

  ghost function Removed(index: Index, path: Path): Index {
    if path != [] && path in index then Detached(index, [], path) else index
  }

  // Every proper prefix of `target`, the root included, grows by `size`.
  ghost function Raised(index: Index, target: Path, size: u64): Index {
    map p | p in index.Keys + (set i | 0 <= i < |target| :: target[..i]) ::
      if p < target then SatAdd(SizeOr0(index, p), size) else index[p]
  }

  // The index when the walk down has reached `at`, which now exists.
  ghost function Walked(index: Index, at: Path, size: u64): Index {
    Raised(index, at, size)[at := SizeOr0(index, at)]
  }

  // One step of the walk: the entry `name` below `at` exists, and `at` has grown.
  ghost function Stepped(index: Index, at: Path, name: Name, size: u64): Index {
    index[at + [name] := SizeOr0(index, at + [name])][at := SatAdd(SizeOr0(index, at), size)]
  }

  lemma RaisedAt(index: Index, target: Path, size: u64, p: Path)
    ensures p in Raised(index, target, size) <==> p in index || p < target
  {
    if p < target {
      assert p == target[..|p|];
    }
  }

  ghost function Added(index: Index, target: Path, sub: Index): Index
    requires [] in sub
  {
    if target == [] then index else Graft(Raised(index, target, sub[[]]), target, sub)
  }

  // `remove_path(from)` and then `add_directory(to, …)` with what came off.
  ghost function Relocated(index: Index, from: Path, to: Path): Index
    requires from in index
  {
    assert from + [] == from;
    Added(Removed(index, from), to, Subtree(index, from))
  }

  type Nodes = map<Path, DiskUsage>

  // A tree of nodes as seen from its root: the node and its size at every recorded path.
  datatype Shape = Shape(nodes: Nodes, sizes: Index)

  // The node recorded at `p` has an entry `name` exactly when the path below is recorded too.
  ghost predicate Linked(nodes: Nodes, p: Path, name: Name)
    reads nodes.Values`entries
  {
    p in nodes ==>
      && (name in nodes[p].entries <==> p + [name] in nodes)
      && (name in nodes[p].entries ==> nodes[p].entries[name] == nodes[p + [name]])
  }

  ghost predicate AllLinked(nodes: Nodes)
    reads nodes.Values`entries
  {
    forall p, name :: Linked(nodes, p, name)
  }

  // The entries of every node at one moment.
  type Entries = map<Path, map<Name, DiskUsage>>

  ghost function EntriesOf(nodes: Nodes): (entries: Entries)
    reads nodes.Values`entries
    ensures entries.Keys == nodes.Keys && forall p | p in nodes :: entries[p] == nodes[p].entries
  {
    map p | p in nodes :: nodes[p].entries
  }

  // `Linked`, of the entries at that moment.
  ghost predicate LinkedThen(nodes: Nodes, entries: Entries, p: Path, name: Name) {
    p in nodes && p in entries ==>
      && (name in entries[p] <==> p + [name] in nodes)
      && (name in entries[p] ==> entries[p][name] == nodes[p + [name]])
  }

  ghost predicate AllLinkedThen(nodes: Nodes, entries: Entries) {
    entries.Keys == nodes.Keys && forall p, name :: LinkedThen(nodes, entries, p, name)
  }

  lemma LinkedNow(nodes: Nodes)
    requires AllLinked(nodes)
    ensures AllLinkedThen(nodes, EntriesOf(nodes))
  {
    forall p, name ensures LinkedThen(nodes, EntriesOf(nodes), p, name) {
      assert Linked(nodes, p, name);
    }
  }

  ghost predicate AllSized(s: Shape)
    reads s.nodes.Values`size
  {
    s.sizes.Keys == s.nodes.Keys && forall p | p in s.nodes :: s.nodes[p].size == s.sizes[p]
  }

  class DiskUsage {
    var size: u64
    var entries: map<Name, DiskUsage>

    constructor ()
      ensures size == 0 && entries == map[]
      ensures Fits(Shape(map[[] := this], map[[] := 0]))
    {
      size, entries := 0, map[];
    }

    // `s` describes this node and everything below it: no node is reached by two paths.
    ghost predicate Fits(s: Shape)
      reads s.nodes.Values`entries, s.nodes.Values`size
    {
      Rooted(s.nodes) && s.nodes[[]] == this && Injective(s.nodes) && AllLinked(s.nodes) && AllSized(s)
    }

    lemma FitsParts(s: Shape)
      requires Rooted(s.nodes) && s.nodes[[]] == this && Injective(s.nodes) && AllLinked(s.nodes) && AllSized(s)
      ensures Fits(s)
    {
    }

    lemma RootSize(s: Shape)
      requires Fits(s)
      ensures [] in s.sizes && s.sizes[[]] == size && this in s.nodes.Values
    {
    }

    // What hanging at `at` in `s` says about this node.
    lemma Hangs(root: DiskUsage, s: Shape, at: Path, name: Name)
      requires root.Fits(s) && at in s.nodes && s.nodes[at] == this
      ensures this in s.nodes.Values && at in s.sizes && s.sizes[at] == size
      ensures name in entries <==> at + [name] in s.nodes
      ensures name in entries <==> at + [name] in s.sizes
      ensures name in entries ==> entries[name] == s.nodes[at + [name]]
      ensures forall p | p in s.nodes && p != at :: s.nodes[p] != this
    {
      assert Linked(s.nodes, at, name);
      forall p | p in s.nodes && p != at ensures s.nodes[p] != this {
        assert Apart(s.nodes, p, at);
      }
    }

    // The assignment to one node's size field.
    method SetSize(value: u64, ghost root: DiskUsage, ghost s: Shape, ghost at: Path)
      requires root.Fits(s) && at in s.nodes && s.nodes[at] == this
      modifies this`size
      ensures root.Fits(s.(sizes := s.sizes[at := value]))
      ensures at in s.sizes && s.sizes[at] == old(size)
    {
      Hangs(root, s, at, "");
      hide Rooted;
      hide Injective;
      hide AllLinked;
      size := value;
    }

    // The entry of the nested map under `name`, inserted with size zero when there is none.
    method EntryOrDefault(name: Name, ghost root: DiskUsage, ghost s: Shape, ghost at: Path)
      returns (entry: DiskUsage, ghost s': Shape)
      requires root.Fits(s) && at in s.nodes && s.nodes[at] == this
      modifies this`entries
      ensures root.Fits(s') && at + [name] in s'.nodes && s'.nodes[at + [name]] == entry
      ensures entry.size == SizeOr0(s.sizes, at + [name])
      ensures s'.sizes == s.sizes[at + [name] := entry.size]
      ensures s'.nodes == s.nodes || (s'.nodes == s.nodes[at + [name] := entry] && fresh(entry))
    {
      Hangs(root, s, at, name);
      ghost var here := at + [name];
      if name in entries {
        entry := entries[name];
        return entry, s;
      }
      entry := new DiskUsage();
      s' := Shape(s.nodes[here := entry], s.sizes[here := 0]);
      RootedAdded(s.nodes, at, name, entry);
      InjectiveAdded(s.nodes, here, entry);
      hide Rooted;
      hide Injective;
      label before:
      entries := entries[name := entry];
      forall p, n ensures Linked(s'.nodes, p, n) {
        assert old@before(Linked(s.nodes, p, n));
        if p + [n] == here { ChildPathUnique(p, n, at, name); }
      }
    }

    // `at` says where in `s` this node hangs under `root`.
    function GetSize(path: Path, ghost root: DiskUsage, ghost s: Shape, ghost at: Path): (size: Option<u64>)
      requires root.Fits(s) && at in s.nodes && s.nodes[at] == this
      reads s.nodes.Values
      ensures size == if at + path in s.sizes then Some(s.sizes[at + path]) else None
      decreases |path|
    {
      Hangs(root, s, at, if path == [] then "" else path[0]);
      if path == [] then
        assert at + path == at;
        Some(this.size)
      else
        assert at + path == (at + [path[0]]) + path[1..];
        if path[0] !in entries then
          MissingBelow(s.nodes, at, path);
          None
        else
          var usage := entries[path[0]];
          if path[1..] == [] then
            assert at + path == at + [path[0]];
            Some(usage.size)
          else usage.GetSize(path[1..], root, s, at + [path[0]])
    }

    method UpdateSize(path: Path, delta: i64, ghost s: Shape) returns (ghost s': Shape)
      requires Fits(s)
      modifies s.nodes.Values
      ensures Fits(s') && fresh(s'.nodes.Values - s.nodes.Values)
      ensures s'.sizes == Updated(s.sizes, path, delta)
    {
      s' := s;
      UpdatedNone(s.sizes, delta);
      hide Updated;
      hide Injective;
      hide AllLinked;
      hide AllSized;
      var current := this;
      ghost var at: Path := [];
      for i := 0 to |path|
        invariant Fits(s') && fresh(s'.nodes.Values - s.nodes.Values)
        invariant at == path[..i] && at in s'.nodes && current == s'.nodes[at] && current in s'.nodes.Values
        invariant s'.sizes == Updated(s.sizes, at, delta)
      {
        ghost var here := at + [path[i]];
        UpdatedStep(s.sizes, at, path[i], delta);
        current, s' := current.EntryOrDefault(path[i], this, s', at);
        ghost var size := Bump(current.size, delta);
        current.SetSize(Bump(current.size, delta), this, s', here);
        s' := s'.(sizes := s'.sizes[here := size]);
        at := here;
      }
      assert path[..|path|] == path;
    }

    method RemovePath(path: Path, ghost s: Shape)
      returns (removed: Option<DiskUsage>, ghost s': Shape, ghost sub: Shape)
      requires Fits(s)
      modifies s.nodes.Values
      ensures Fits(s') && s'.nodes.Values <= s.nodes.Values
      ensures s'.sizes == Removed(s.sizes, path)
      ensures removed.Some? <==> path != [] && path in s.sizes
      ensures removed.Some? ==>
        && removed.value.Fits(sub) && sub.sizes == Subtree(s.sizes, path)
        && sub.nodes.Values <= s.nodes.Values && sub.nodes.Values !! s'.nodes.Values
    {
      if path == [] {
        return None, s, s;
      }
      assert [] + path == path;
      SplitDisjoint(s.nodes, path);
      hide Detached;
      hide Prune;
      hide Subtree;
      removed, s', sub := RecursiveRemove(path, this, s, []);
    }

    method RecursiveRemove(path: Path, ghost root: DiskUsage, ghost s: Shape, ghost at: Path)
      returns (removed: Option<DiskUsage>, ghost s': Shape, ghost sub: Shape)
      requires root.Fits(s) && at in s.nodes && s.nodes[at] == this && path != []
      modifies s.nodes.Values
      ensures root.Fits(s')
      ensures removed.Some? <==> at + path in s.sizes
      ensures removed.None? ==> s' == s
      ensures removed.Some? ==>
        && s'.nodes == Prune(s.nodes, at + path) && s'.sizes == Detached(s.sizes, at, at + path)
        && removed.value.Fits(sub) && sub.sizes == Subtree(s.sizes, at + path)
        && sub.nodes == Subtree(s.nodes, at + path)
      decreases |path|
    {
      hide *;
      var name := path[0];
      ghost var next, target := at + [name], at + path;
      Hangs(root, s, at, name);
      assert target == next + path[1..];
      sub := s;
      if |path| == 1 {
        assert path == [name] && target == next;
        if name !in entries {
          return None, s, s;
        }
        DetachedChild(s.sizes, at, name);
        var usage;
        usage, s', sub := RemoveEntry(name, root, s, at);
        removed := Some(usage);
        return;
      }
      if name !in entries {
        MissingUnder(root, s, at, path);
        return None, s, s;
      }
      var usage := entries[name];
      Underneath(root, s, at, name, target);
      removed, s', sub := usage.RecursiveRemove(path[1..], root, s, next);
      if removed.Some? {
        removed.value.RootSize(sub);
        ghost var size := SatSub(usage.size, removed.value.size);
        usage.SetSize(SatSub(usage.size, removed.value.size), root, s', next);
        s' := s'.(sizes := s'.sizes[next := size]);
      }
    }

    lemma MissingUnder(root: DiskUsage, s: Shape, at: Path, path: Path)
      requires root.Fits(s) && path != [] && at + [path[0]] !in s.nodes
      ensures at + path !in s.sizes
    {
      MissingBelow(s.nodes, at, path);
    }

    // What the walk down knows of the entry `name` when it comes back from `target` below it.
    lemma Underneath(root: DiskUsage, s: Shape, at: Path, name: Name, target: Path)
      requires root.Fits(s) && at in s.nodes && s.nodes[at] == this && name in entries && at + [name] < target
      ensures var next, usage := at + [name], entries[name];
        && next in s.sizes && usage.size == s.sizes[next] && next in s.nodes && s.nodes[next] == usage
        && usage in s.nodes.Values
        && (target in s.sizes ==>
              var kept := Detached(s.sizes, next, target);
              && next in Prune(s.nodes, target) && Prune(s.nodes, target)[next] == usage
              && usage !in Subtree(s.nodes, target).Values
              && next in kept && kept[next] == s.sizes[next]
              && [] in Subtree(s.sizes, target) && Subtree(s.sizes, target)[[]] == s.sizes[target]
              && Detached(s.sizes, at, target) == kept[next := SatSub(s.sizes[next], s.sizes[target])])
    {
      Hangs(root, s, at, name);
      var next := at + [name];
      if target in s.sizes {
        DetachedStep(s.sizes, at, name, target);
        SplitDisjoint(s.nodes, target);
        assert !(target <= next) && target + [] == target;
      }
    }

    // Takes the entry `name` out of this node's map.
    method RemoveEntry(name: Name, ghost root: DiskUsage, ghost s: Shape, ghost at: Path)
      returns (removed: DiskUsage, ghost s': Shape, ghost sub: Shape)
      requires root.Fits(s) && at in s.nodes && s.nodes[at] == this && name in entries
      modifies this`entries
      ensures root.Fits(s') && removed.Fits(sub)
      ensures s' == Shape(Prune(s.nodes, at + [name]), Prune(s.sizes, at + [name]))
      ensures sub == Shape(Subtree(s.nodes, at + [name]), Subtree(s.sizes, at + [name]))
    {
      hide *;
      ghost var target := at + [name];
      s' := Shape(Prune(s.nodes, target), Prune(s.sizes, target));
      sub := Shape(Subtree(s.nodes, target), Subtree(s.sizes, target));
      Prunes(root, s, at, name);
      LinkedNow(s.nodes);
      ghost var before := EntriesOf(s.nodes);
      removed := entries[name];
      entries := entries - {name};
      LinkedPruned(s.nodes, before, at, name);
      root.FitsParts(s');
    }

    // What pruning below this node keeps, and that the part cut off is a tree of its own.
    lemma Prunes(root: DiskUsage, s: Shape, at: Path, name: Name)
      requires root.Fits(s) && at in s.nodes && s.nodes[at] == this && name in entries
      ensures var target := at + [name];
        var s' := Shape(Prune(s.nodes, target), Prune(s.sizes, target));
        var sub := Shape(Subtree(s.nodes, target), Subtree(s.sizes, target));
        && Rooted(s'.nodes) && Injective(s'.nodes) && AllSized(s') && s'.nodes[[]] == root && this in s'.nodes.Values
        && entries[name].Fits(sub) && s'.nodes.Values !! sub.nodes.Values
      ensures AllLinked(s.nodes)
      ensures forall p | p in s.nodes && p != at :: s.nodes[p] != this
    {
      var target := at + [name];
      Hangs(root, s, at, name);
      FitsBelow(root, s, target);
      RootedPrune(s.nodes, target);
      InjectivePrune(s.nodes, target);
      SplitDisjoint(s.nodes, target);
      hide Rooted;
      hide Injective;
      hide AllSized;
      hide AllLinked;
      hide Prune;
      hide Subtree;
      assert !(target <= at) && !(target <= []);
      assert Prune(s.nodes, target)[at] == this;
    }

    method Clear(ghost s: Shape) returns (ghost s': Shape)
      requires Fits(s)
      modifies this`entries
      ensures Fits(s') && s' == Shape(map[[] := this], map[[] := size]) && size == s.sizes[[]]
    {
      Hangs(this, s, [], "");
      entries := map[];
      s' := Shape(map[[] := this], map[[] := size]);
    }

    method AddDirectory(target: Path, source: DiskUsage, ghost s: Shape, ghost sub: Shape)
      returns (added: bool, ghost s': Shape)
      requires Fits(s) && source.Fits(sub) && s.nodes.Values !! sub.nodes.Values
      modifies s.nodes.Values
      ensures added <==> target != []
      ensures Fits(s') && fresh(s'.nodes.Values - s.nodes.Values - sub.nodes.Values)
      ensures s'.sizes == Added(s.sizes, target, sub.sizes)
    {
      s' := s;
      if target == [] {
        return false, s';
      }
      var leaf, parents := target[|target| - 1], target[..|target| - 1];
      assert target == parents + [leaf];
      hide *;
      s' := HangBelow(parents, leaf, source, s, sub);
      added := true;
    }

    method HangBelow(parents: Path, leaf: Name, source: DiskUsage, ghost s: Shape, ghost sub: Shape)
      returns (ghost s': Shape)
      requires Fits(s) && source.Fits(sub) && s.nodes.Values !! sub.nodes.Values
      modifies s.nodes.Values
      ensures Fits(s') && fresh(s'.nodes.Values - s.nodes.Values - sub.nodes.Values)
      ensures s'.sizes == Added(s.sizes, parents + [leaf], sub.sizes)
    {
      assert source in sub.nodes.Values && [] in sub.sizes && source.size == sub.sizes[[]];
      hide *;
      var current;
      current, s' := RaiseParents(parents, source.size, s);
      assert s'.nodes.Values !! sub.nodes.Values && source.Fits(sub);
      AddedFrom(s.sizes, parents, leaf, sub.sizes);
      s' := current.Attach(leaf, source, this, s', sub, parents);
    }

    // Grows by the size of `source` and takes it in under `name`.
    method Attach(name: Name, source: DiskUsage, ghost root: DiskUsage, ghost s: Shape, ghost sub: Shape,
                  ghost at: Path)
      returns (ghost s': Shape)
      requires root.Fits(s) && at in s.nodes && s.nodes[at] == this
      requires source.Fits(sub) && s.nodes.Values !! sub.nodes.Values && source in sub.nodes.Values
      modifies this
      ensures root.Fits(s') && s'.nodes.Values <= s.nodes.Values + sub.nodes.Values
      ensures s'.sizes == Graft(s.sizes[at := SatAdd(SizeOr0(s.sizes, at), old(source.size))], at + [name], sub.sizes)
    {
      Hangs(root, s, at, name);
      GraftValues(s.nodes, at + [name], sub.nodes);
      hide *;
      SetSize(SatAdd(size, source.size), root, s, at);
      s' := s.(sizes := s.sizes[at := SatAdd(s.sizes[at], source.size)]);
      s' := InsertEntry(name, source, root, s', sub, at);
    }

    // Walks down `parents`, creating what is missing; every node it leaves behind grows by `total`.
    method RaiseParents(parents: Path, total: u64, ghost s: Shape) returns (current: DiskUsage, ghost s': Shape)
      requires Fits(s)
      modifies s.nodes.Values
      ensures Fits(s') && fresh(s'.nodes.Values - s.nodes.Values)
      ensures parents in s'.nodes && current == s'.nodes[parents]
      ensures s'.sizes == Walked(s.sizes, parents, total)
    {
      current, s' := this, s;
      ghost var at: Path, repr := [], s.nodes.Values;
      assert [] in s.nodes && s.nodes[[]] == this && [] in s.sizes && this in repr;
      hide *;
      RaisedNone(s.sizes, total);
      for i := 0 to |parents|
        invariant Fits(s') && s'.nodes.Values <= repr && fresh(repr - s.nodes.Values) && current in repr
        invariant at == parents[..i] && at in s'.nodes && current == s'.nodes[at]
        invariant s'.sizes == Walked(s.sizes, at, total)
      {
        assert parents[..i + 1] == parents[..i] + [parents[i]];
        current, s', at := current.Descend(parents[i], total, this, s', at, s.sizes);
        repr := repr + {current};
      }
      assert parents[..|parents|] == parents;
    }

    // Moves on to the entry `name`, and adds `total` to the size of the node left behind.
    method Descend(name: Name, total: u64, ghost root: DiskUsage, ghost s: Shape, ghost at: Path, ghost base: Index)
      returns (entry: DiskUsage, ghost s': Shape, ghost next: Path)
      requires root.Fits(s) && at in s.nodes && s.nodes[at] == this && s.sizes == Walked(base, at, total)
      modifies this
      ensures root.Fits(s') && next == at + [name] && next in s'.nodes && s'.nodes[next] == entry
      ensures (entry in s.nodes.Values || fresh(entry)) && s'.nodes.Values <= s.nodes.Values + {entry}
      ensures s'.sizes == Walked(base, next, total)
    {
      next := at + [name];
      assert next != at;
      RaisedStep(base, at, name, total);
      hide Walked;
      hide Fits;
      entry, s' := EntryOrDefault(name, root, s, at);
      SetSize(SatAdd(size, total), root, s', at);
      s' := s'.(sizes := s'.sizes[at := SatAdd(s'.sizes[at], total)]);
    }

    // What a graft below this node keeps, before the node takes in its new entry.
    lemma Grafts(source: DiskUsage, root: DiskUsage, s: Shape, sub: Shape, at: Path, name: Name)
      requires root.Fits(s) && at in s.nodes && s.nodes[at] == this
      requires source.Fits(sub) && s.nodes.Values !! sub.nodes.Values
      ensures var target := at + [name];
        var s' := Shape(Graft(s.nodes, target, sub.nodes), Graft(s.sizes, target, sub.sizes));
        Rooted(s'.nodes) && Injective(s'.nodes) && AllSized(s') && s'.nodes[[]] == root
      ensures this !in sub.nodes.Values && [] in sub.nodes && sub.nodes[[]] == source
      ensures AllLinked(s.nodes) && AllLinked(sub.nodes)
      ensures forall p | p in s.nodes && p != at :: s.nodes[p] != this
    {
      Hangs(root, s, at, name);
      var target := at + [name];
      RootedGraft(s.nodes, at, name, sub.nodes);
      InjectiveGraft(s.nodes, target, sub.nodes);
      hide Rooted;
      hide Injective;
      hide AllSized;
      hide AllLinked;
      assert !(target <= []);
    }

    // Puts `source` under `name` in this node's map, whatever was there before.
    method InsertEntry(name: Name, source: DiskUsage, ghost root: DiskUsage, ghost s: Shape, ghost sub: Shape,
                       ghost at: Path)
      returns (ghost s': Shape)
      requires root.Fits(s) && at in s.nodes && s.nodes[at] == this
      requires source.Fits(sub) && s.nodes.Values !! sub.nodes.Values
      modifies this`entries
      ensures root.Fits(s')
      ensures s' == Shape(Graft(s.nodes, at + [name], sub.nodes), Graft(s.sizes, at + [name], sub.sizes))
    {
      hide *;
      ghost var target := at + [name];
      s' := Shape(Graft(s.nodes, target, sub.nodes), Graft(s.sizes, target, sub.sizes));
      Grafts(source, root, s, sub, at, name);
      LinkedNow(s.nodes);
      ghost var before := EntriesOf(s.nodes);
      entries := entries[name := source];
      LinkedGraft(s.nodes, before, at, name, sub.nodes);
      root.FitsParts(s');
    }
  }

  // Links survive when the node at `at` loses the entry `name`.
  lemma LinkedPruned(nodes: Nodes, before: Entries, at: Path, name: Name)
    requires AllLinkedThen(nodes, before) && at in nodes
    requires forall p | p in nodes :: nodes[p].entries == if p == at then before[p] - {name} else before[p]
    ensures AllLinked(Prune(nodes, at + [name]))
  {
    var target, kept := at + [name], Prune(nodes, at + [name]);
    hide Prune;
    forall p, n ensures Linked(kept, p, n) {
      assert LinkedThen(nodes, before, p, n);
      PrunedChild(nodes, at, name, p, n);
    }
  }

  // Links survive when the node at `at` takes in `sub` under `name`.
  lemma LinkedGraft(nodes: Nodes, before: Entries, at: Path, name: Name, sub: Nodes)
    requires AllLinkedThen(nodes, before) && at in nodes
    requires AllLinked(sub) && [] in sub
    requires forall p | p in nodes ::
      nodes[p].entries == if p == at then before[p][name := sub[[]]] else before[p]
    ensures AllLinked(Graft(nodes, at + [name], sub))
  {
    var target, all := at + [name], Graft(nodes, at + [name], sub);
    hide Graft;
    forall p, n ensures Linked(all, p, n) {
      GraftedChild(nodes, at, name, sub, p, n);
      assert LinkedThen(nodes, before, p, n);
      if target <= p {
        assert Linked(sub, p[|target|..], n);
      }
    }
  }

  lemma RaisedNone(index: Index, size: u64)
    ensures [] in index ==> index == Walked(index, [], size)
  {
  }

  lemma RaisedChild(index: Index, at: Path, name: Name, size: u64)
    ensures Raised(index, at + [name], size) == Raised(index, at, size)[at := SatAdd(SizeOr0(index, at), size)]
    ensures SizeOr0(Raised(index, at, size), at + [name]) == SizeOr0(index, at + [name])
  {
    var next := at + [name];
    var after, before := Raised(index, next, size), Raised(index, at, size);
    forall p
      ensures p in after <==> p in before || p == at
      ensures p in after ==> after[p] == if p == at then SatAdd(SizeOr0(index, at), size) else before[p]
    {
      ProperPrefixOfChild(p, at, name);
      RaisedAt(index, next, size, p);
      RaisedAt(index, at, size, p);
    }
    RaisedAt(index, at, size, next);
  }

  // One turn of the loop over the parents: enter `name` below `at`, then raise `at`.
  lemma RaisedStep(index: Index, at: Path, name: Name, size: u64)
    ensures Stepped(Walked(index, at, size), at, name, size) == Walked(index, at + [name], size)
  {
    RaisedChild(index, at, name, size);
    hide Raised;
    assert at + [name] != at;
  }

  lemma AddedFrom(index: Index, at: Path, leaf: Name, sub: Index)
    requires [] in sub
    ensures var walked := Walked(index, at, sub[[]]);
      Added(index, at + [leaf], sub) == Graft(walked[at := SatAdd(SizeOr0(walked, at), sub[[]])], at + [leaf], sub)
  {
    var size := sub[[]];
    var walked := Walked(index, at, size);
    RaisedChild(index, at, leaf, size);
    assert SizeOr0(walked, at) == SizeOr0(index, at);
    hide Raised;
    hide Graft;
    assert walked[at := SatAdd(SizeOr0(walked, at), size)] == Raised(index, at + [leaf], size);
  }

  lemma FitsBelow(root: DiskUsage, s: Shape, target: Path)
    requires root.Fits(s) && target in s.nodes
    ensures s.nodes[target].Fits(Shape(Subtree(s.nodes, target), Subtree(s.sizes, target)))
  {
    var nodes := Subtree(s.nodes, target);
    RootedSubtree(s.nodes, target);
    InjectiveSubtree(s.nodes, target);
    assert target + [] == target;
    hide Subtree;
    forall p, n ensures Linked(nodes, p, n) {
      ChildBelow(target, p, n);
      assert Linked(s.nodes, target + p, n);
    }
  }

  lemma DetachedStep(index: Index, at: Path, name: Name, target: Path)
    requires target in index && at + [name] in index && at + [name] < target
    ensures Detached(index, at, target)
      == Detached(index, at + [name], target)[at + [name] := SatSub(index[at + [name]], index[target])]
  {
    var next := at + [name];
    forall p: Path | p in index && p < target ensures at < p <==> next < p || p == next {
      if at < p {
        assert p[..|next|] == next;
      }
    }
  }

  lemma DetachedChild(index: Index, at: Path, name: Name)
    ensures at + [name] in index ==> Detached(index, at, at + [name]) == Prune(index, at + [name])
  {
  }

  lemma UpdatedNone(index: Index, delta: i64)
    ensures Updated(index, [], delta) == index
  {
  }

  lemma UpdatedSize(index: Index, path: Path, delta: i64, d: Path)
    ensures SizeOr0(Updated(index, path, delta), d)
      == if d != [] && d <= path then Bump(SizeOr0(index, d), delta) else SizeOr0(index, d)
  {
  }

  lemma RemovedSize(index: Index, path: Path, d: Path)
    requires path != [] && path in index && d != []
    ensures SizeOr0(Removed(index, path), d)
      == if path <= d then 0 else if d < path then SatSub(SizeOr0(index, d), index[path]) else SizeOr0(index, d)
  {
  }

  lemma AddedSize(index: Index, to: Path, sub: Index, d: Path)
    requires to != [] && [] in sub
    ensures SizeOr0(Added(index, to, sub), d)
      == if to <= d then SizeOr0(sub, d[|to|..])
         else if d < to then SatAdd(SizeOr0(index, d), sub[[]])
         else SizeOr0(index, d)
  {
    RaisedAt(index, to, sub[[]], d);
  }

  lemma RelocatedSize(index: Index, from: Path, to: Path, d: Path)
    requires from in index && from != [] && to != [] && d != []
    ensures SizeOr0(Relocated(index, from, to), d)
      == if to <= d then SizeOr0(index, from + d[|to|..])
         else
           var left := if from <= d then 0
                       else if d < from then SatSub(SizeOr0(index, d), index[from])
                       else SizeOr0(index, d);
           if d < to then SatAdd(left, index[from]) else left
    ensures [] in index ==> [] in Relocated(index, from, to)
  {
    var sub := Subtree(index, from);
    assert from + [] == from;
    assert [] in sub && sub[[]] == index[from];
    assert to <= d ==> SizeOr0(sub, d[|to|..]) == SizeOr0(index, from + d[|to|..]);
    hide Removed;
    hide Added;
    hide Subtree;
    RemovedSize(index, from, d);
    AddedSize(Removed(index, from), to, sub, d);
  }

  // A number brought back into what an unsigned 64-bit field holds.
  function Clamped(n: int): u64 {
    if n < 0 then 0 else if n > 0xFFFF_FFFF_FFFF_FFFF then 0xFFFF_FFFF_FFFF_FFFF else n
  }

  // An update takes each recorded size on the way to the exact sum, as far as the field goes, and records
  // every path on the way, the root excepted.
  lemma UpdatedClamped(index: Index, path: Path, delta: i64, p: Path)
    ensures p in Updated(index, path, delta) <==> p in index || (p != [] && p <= path)
    ensures SizeOr0(Updated(index, path, delta), p)
      == if p != [] && p <= path then Clamped(SizeOr0(index, p) + delta) else SizeOr0(index, p)
  {
  }

  // A removal leaves nothing at or below the path, takes its size off every recorded directory above it but
  // the root, and does nothing to a path that is not recorded.
  lemma RemovedClamped(index: Index, path: Path, p: Path)
    ensures p in Removed(index, path) <==> p in index && !(path != [] && path in index && path <= p)
    ensures p in Removed(index, path) ==>
      Removed(index, path)[p]
      == if p != [] && p < path && path in index then Clamped(index[p] as int - index[path]) else index[p]
  {
  }

  // An addition hangs exactly what is added at the target, and every directory above it, the root included, is
  // recorded and grows by the size of what is added.
  lemma AddedClamped(index: Index, target: Path, sub: Index, p: Path)
    requires [] in sub && target != []
    ensures p in Added(index, target, sub)
      <==> if target <= p then p[|target|..] in sub else p in index || p < target
    ensures p in Added(index, target, sub) ==>
      Added(index, target, sub)[p]
      == if target <= p then sub[p[|target|..]]
         else if p < target then Clamped(SizeOr0(index, p) + sub[[]])
         else index[p]
  {
    RaisedAt(index, target, sub[[]], p);
  }

  lemma UpdatedStep(index: Index, at: Path, name: Name, delta: i64)
    ensures var before, here := Updated(index, at, delta), at + [name];
      Updated(index, here, delta) == before[here := Bump(SizeOr0(before, here), delta)]
  {
    var here := at + [name];
    forall p: Path ensures p in Prefixes(here) <==> p in Prefixes(at) || p == here {
      if p <= here && p != here {
        assert p == here[..|p|];
      }
    }
  }
}
