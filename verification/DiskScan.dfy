/** The recursive scan that rebuilds the size index and the cached counter from the files on disk. */
module DiskScan {
  import opened Basics
  import opened PathMaps
  import opened DiskIndex
  import opened Ledgers
  import opened Filesystems
  import opened DiskRuns

  // What `symlink_metadata` and `read_dir` find: lengths, and names for what a directory holds.
  datatype Entry = File(length: nat) | Directory(length: nat, children: seq<Child>)
  datatype Child = Child(name: Name, entry: Entry)

  ghost function Lengths(cs: seq<Child>): nat {
    if cs == [] then 0 else Lengths(cs[..|cs| - 1]) + cs[|cs| - 1].entry.length
  }

  // A directory's own length and those of its direct entries.
  ghost function Direct(entry: Entry): nat {
    entry.length + if entry.Directory? then Lengths(entry.children) else 0
  }

  // No directory holds two entries of one name.
  ghost predicate Distinct(cs: seq<Child>) {
    cs == []
    || (var n := |cs| - 1;
        && Distinct(cs[..n])
        && (forall i | 0 <= i < n :: cs[i].name != cs[n].name)
        && (cs[n].entry.Directory? ==> Distinct(cs[n].entry.children)))
  }

  ghost function Lookup(cs: seq<Child>, path: Path): Option<Entry>
    requires path != []
    decreases cs
  {
    if cs == [] then None
    else
      var child := cs[|cs| - 1];
      if child.name != path[0] then Lookup(cs[..|cs| - 1], path)
      else if |path| == 1 then Some(child.entry)
      else if child.entry.Directory? then Lookup(child.entry.children, path[1..])
      else None
  }

  ghost predicate IsDirectoryAt(cs: seq<Child>, path: Path)
    requires path != []
  {
    var found := Lookup(cs, path);
    found.Some? && found.value.Directory?
  }

  ghost predicate HoldsDirectory(cs: seq<Child>) {
    exists i | 0 <= i < |cs| :: cs[i].entry.Directory?
  }

  // The index after the loop has visited `cs`, entries of the directory `at`.
  ghost function Scanned(index: Index, cs: seq<Child>, at: Path): Index
    decreases cs
  {
    if cs == [] then index
    else
      var child, before := cs[|cs| - 1], Scanned(index, cs[..|cs| - 1], at);
      if child.entry.File? then before
      else
        var here := at + [child.name];
        Updated(Scanned(before, child.entry.children, here), here, WrapI64(WrapU64(Direct(child.entry))))
  }

  lemma ScannedStep(index: Index, cs: seq<Child>, i: nat, at: Path)
    requires i < |cs|
    ensures var child, before, here := cs[i].entry, Scanned(index, cs[..i], at), at + [cs[i].name];
      Scanned(index, cs[..i + 1], at)
      == if child.File? then before
         else Updated(Scanned(before, child.children, here), here, WrapI64(WrapU64(Direct(child))))
    ensures Lengths(cs[..i + 1]) == Lengths(cs[..i]) + cs[i].entry.length
  {
    assert cs[..i + 1][..i] == cs[..i];
  }

  lemma WrapSum(a: int, b: int)
    ensures WrapU64(WrapU64(a) + b) == WrapU64(a + b)
  {
  }

  method RecursiveSize(entry: Entry, relative: Path, usage: DiskUsage, ghost s: Shape)
    returns (total: u64, ghost s': Shape)
    requires usage.Fits(s)
    modifies s.nodes.Values
    ensures usage.Fits(s') && fresh(s'.nodes.Values - s.nodes.Values)
    ensures total == WrapU64(Direct(entry))
    ensures s'.sizes == if entry.Directory? then Scanned(s.sizes, entry.children, relative) else s.sizes
    decreases entry
  {
    hide *;
    ScanStarts(entry, s.sizes, relative);
    total := WrapU64(entry.length);
    s' := s;
    if entry.Directory? {
      var cs := entry.children;
      for i := 0 to |cs|
        invariant usage.Fits(s') && fresh(s'.nodes.Values - s.nodes.Values)
        invariant total == WrapU64(entry.length + Lengths(cs[..i]))
        invariant s'.sizes == Scanned(s.sizes, cs[..i], relative)
      {
        var newPath := relative + [cs[i].name];
        ScannedStep(s.sizes, cs, i, relative);
        WrapSum(entry.length + Lengths(cs[..i]), cs[i].entry.length);
        total := WrapU64(total + cs[i].entry.length);
        if cs[i].entry.Directory? {
          var size;
          size, s' := RecursiveSize(cs[i].entry, newPath, usage, s');
          assert fresh(s'.nodes.Values - s.nodes.Values);
          s' := usage.UpdateSize(newPath, WrapI64(size), s');
        }
      }
      assert cs[..|cs|] == cs;
    }
  }

  lemma ScanStarts(entry: Entry, index: Index, at: Path)
    ensures Direct(entry) == entry.length + if entry.Directory? then Lengths(entry.children) else 0
    ensures entry.Directory? ==> Scanned(index, entry.children[..0], at) == index && Lengths(entry.children[..0]) == 0
  {
  }

  // The sizes of the top-level entries, added up in whatever order the map yields them.
  method EntryTotal(usage: DiskUsage, ghost s: Shape) returns (sum: u64)
    requires usage.Fits(s)
    ensures sum == WrapU64(Total(TopLevel(s.sizes)))
  {
    ghost var tops := TopLevel(s.sizes);
    ghost var left := tops;
    var names := usage.entries.Keys;
    sum := 0;
    forall name | name in usage.entries
      ensures [name] in s.sizes && usage.entries[name].size == tops[[name]]
    {
      TopEntry(usage, s, name);
    }
    forall p | p in tops ensures p == [p[0]] && p[0] in names {
      TopEntry(usage, s, p[0]);
    }
    hide DiskUsage.Fits;
    hide TopLevel;
    while names != {}
      invariant names <= usage.entries.Keys
      invariant forall p :: p in left <==> p in tops && p[0] in names
      invariant forall p | p in left :: left[p] == tops[p]
      invariant Total(left) <= Total(tops) && sum == WrapU64(Total(tops) - Total(left))
      decreases names
    {
      var name :| name in names;
      names := names - {name};
      assert [name] in left;
      TotalWithout(left, [name]);
      WrapSum(Total(tops) - Total(left), left[[name]]);
      sum := WrapU64(sum + usage.entries[name].size);
      left := left - {[name]};
    }
    assert left == map[];
  }

  lemma TopEntry(usage: DiskUsage, s: Shape, name: Name)
    requires usage.Fits(s)
    ensures name in usage.entries <==> [name] in s.sizes
    ensures name in usage.entries ==> usage.entries[name].size == s.sizes[[name]]
  {
    usage.Hangs(usage, s, [], name);
    assert [] + [name] == [name];
  }

  // A scan into a fresh index.
  method Scan(root: Entry) returns (usage: DiskUsage, total: u64, ghost s: Shape)
    requires root.Directory?
    ensures usage.Fits(s) && fresh(s.nodes.Values)
    ensures total == WrapU64(Direct(root))
    ensures s.sizes == Scanned(map[[] := 0], root.children, [])
  {
    usage := new DiskUsage();
    s := Shape(map[[] := usage], map[[] := 0]);
    hide *;
    total, s := RecursiveSize(root, [], usage, s);
  }

  // One round of the disk checker: the fresh index is swapped in with its total.
  method Rescan(fs: Filesystem, root: Entry)
    requires root.Directory?
    modifies fs`diskUsage, fs`diskUsageCached, fs`shape
    ensures fs.Valid() && fresh(fs.shape.nodes.Values)
    ensures fs.Accounts() == ScanDisk(root, fs.diskLimit)
  {
    hide *;
    var usage, total;
    ghost var s;
    usage, total, s := Scan(root);
    var entries := EntryTotal(usage, s);
    WrapBoth(Direct(root), Total(TopLevel(s.sizes)));
    ScanDiskIs(root, fs.diskLimit);
    fs.Replace(usage, s, WrapU64((total as int) + entries));
  }

  lemma WrapBoth(a: int, b: int)
    ensures WrapU64((WrapU64(a) as int) + WrapU64(b)) == WrapU64(a + b)
  {
    WrapSum(a, b);
    WrapSum(b, WrapU64(a));
  }

  lemma ScanDiskIs(root: Entry, limit: i64)
    ensures root.Directory? ==>
      var index := Scanned(map[[] := 0], root.children, []);
      ScanDisk(root, limit) == Disk(index, WrapU64(Direct(root) + Total(TopLevel(index))), limit)
  {
  }

  // What the scan charges to each directory below `at`: its own length and its direct entries'.
  ghost function ScanLedger(ledger: Ledger, cs: seq<Child>, at: Path): Ledger
    decreases cs
  {
    if cs == [] then ledger
    else
      var child, before := cs[|cs| - 1], ScanLedger(ledger, cs[..|cs| - 1], at);
      if child.entry.File? then before
      else
        var here := at + [child.name];
        Credit(ScanLedger(before, child.entry.children, here), here, Direct(child.entry))
  }

  // Bytes charged to the directories inside `cs`.
  ghost function Inner(cs: seq<Child>): nat
    decreases cs
  {
    if cs == [] then 0
    else
      var child := cs[|cs| - 1].entry;
      Inner(cs[..|cs| - 1]) + if child.Directory? then Direct(child) + Inner(child.children) else 0
  }

  lemma {:induction false} ScanTotal(ledger: Ledger, cs: seq<Child>, at: Path)
    ensures Total(ScanLedger(ledger, cs, at)) == Total(ledger) + Inner(cs)
    decreases cs
  {
    if cs != [] {
      var child, before := cs[|cs| - 1], ScanLedger(ledger, cs[..|cs| - 1], at);
      ScanTotal(ledger, cs[..|cs| - 1], at);
      if child.entry.Directory? {
        var here := at + [child.name];
        ScanTotal(before, child.entry.children, here);
        var inside := ScanLedger(before, child.entry.children, here);
        TotalSet(inside, here, Charged(inside, here) + Direct(child.entry));
      }
    }
  }

  // No directory inside `cs` has lengths that turn negative in a signed 64-bit delta.
  ghost predicate Fit(cs: seq<Child>)
    decreases cs
  {
    cs == []
    || (var child := cs[|cs| - 1].entry;
        Fit(cs[..|cs| - 1]) && (child.Directory? ==> Direct(child) <= I64_MAX && Fit(child.children)))
  }

  // How much less than charged the index has recorded for `d`.
  ghost function Gap(index: Index, ledger: Ledger, d: Path): int {
    Used(ledger, d) - SizeOr0(index, d)
  }

  lemma DeltaOf(bytes: nat)
    ensures bytes <= U64_MAX ==>
      WrapU64(bytes) == bytes && WrapI64(bytes) == if bytes <= I64_MAX then bytes else bytes - U64_MAX - 1
  {
  }

  // One update of the scan keeps what is missing, and adds to it exactly if its delta has turned negative.
  lemma {:induction false} UpdateGap(index: Index, ledger: Ledger, here: Path, bytes: nat, d: Path)
    requires d != [] && Gap(index, ledger, d) >= 0 && Total(ledger) + bytes <= U64_MAX
    ensures var before, after := Gap(index, ledger, d),
        Gap(Updated(index, here, WrapI64(WrapU64(bytes))), Credit(ledger, here, bytes), d);
      && after >= before
      && (bytes <= I64_MAX ==> after == before)
      && (bytes > I64_MAX && d <= here ==> after > 0)
  {
    hide Updated;
    hide Used;
    hide Total;
    hide WrapI64;
    hide WrapU64;
    DeltaOf(bytes);
    UpdatedSize(index, here, WrapI64(WrapU64(bytes)), d);
    UsedMonotone(ledger, d, d);
    if bytes > 0 {
      UsedSet(ledger, here, Charged(ledger, here) + bytes, d);
    }
  }

  // The last entry of a directory, as the scan takes it.
  lemma ScanLast(index: Index, ledger: Ledger, cs: seq<Child>, at: Path)
    requires cs != []
    ensures var init, child, here := cs[..|cs| - 1], cs[|cs| - 1].entry, at + [cs[|cs| - 1].name];
      var before, charged := Scanned(index, init, at), ScanLedger(ledger, init, at);
      && (Fit(cs) <==> Fit(init) && (child.Directory? ==> Direct(child) <= I64_MAX && Fit(child.children)))
      && Inner(cs) == Inner(init) + (if child.Directory? then Direct(child) + Inner(child.children) else 0)
      && Total(charged) == Total(ledger) + Inner(init)
      && (child.File? ==> Scanned(index, cs, at) == before && ScanLedger(ledger, cs, at) == charged)
      && (child.Directory? ==>
            var inside, charges := Scanned(before, child.children, here), ScanLedger(charged, child.children, here);
            && Scanned(index, cs, at) == Updated(inside, here, WrapI64(WrapU64(Direct(child))))
            && ScanLedger(ledger, cs, at) == Credit(charges, here, Direct(child))
            && Total(charges) == Total(charged) + Inner(child.children))
  {
    hide Updated;
    hide Credit;
    hide Direct;
    ScanTotal(ledger, cs[..|cs| - 1], at);
    if cs[|cs| - 1].entry.Directory? {
      ScanTotal(ScanLedger(ledger, cs[..|cs| - 1], at), cs[|cs| - 1].entry.children, at + [cs[|cs| - 1].name]);
    }
  }

  // The scan never makes up for bytes it misses, and misses none where every directory fits.
  lemma {:induction false} ScanGap(index: Index, ledger: Ledger, cs: seq<Child>, at: Path, d: Path)
    requires d != [] && Gap(index, ledger, d) >= 0 && Total(ledger) + Inner(cs) <= U64_MAX
    ensures var before, after := Gap(index, ledger, d), Gap(Scanned(index, cs, at), ScanLedger(ledger, cs, at), d);
      after >= before && (Fit(cs) ==> after == before)
    decreases cs
  {
    hide *;
    if cs == [] {
      ScanNone(index, ledger, at);
    } else {
      var init, child, here := cs[..|cs| - 1], cs[|cs| - 1].entry, at + [cs[|cs| - 1].name];
      var before, charged := Scanned(index, init, at), ScanLedger(ledger, init, at);
      ScanLast(index, ledger, cs, at);
      ScanGap(index, ledger, init, at, d);
      if child.Directory? {
        ScanGap(before, charged, child.children, here, d);
        UpdateGap(Scanned(before, child.children, here), ScanLedger(charged, child.children, here), here,
                  Direct(child), d);
      }
    }
  }

  lemma ScanNone(index: Index, ledger: Ledger, at: Path)
    ensures Scanned(index, [], at) == index && ScanLedger(ledger, [], at) == ledger && Fit([])
  {
  }

  // Bytes missed below a directory are missed at the directory too.
  lemma {:induction false} ScanMisses(index: Index, ledger: Ledger, cs: seq<Child>, at: Path, d: Path)
    requires d != [] && d <= at && Gap(index, ledger, d) >= 0 && Total(ledger) + Inner(cs) <= U64_MAX && !Fit(cs)
    ensures Gap(Scanned(index, cs, at), ScanLedger(ledger, cs, at), d) > 0
    decreases cs
  {
    hide *;
    if cs == [] {
      ScanNone(index, ledger, at);
    } else {
      var init, child, here := cs[..|cs| - 1], cs[|cs| - 1].entry, at + [cs[|cs| - 1].name];
      var before, charged := Scanned(index, init, at), ScanLedger(ledger, init, at);
      ScanLast(index, ledger, cs, at);
      ScanGap(index, ledger, init, at, d);
      if !Fit(init) {
        ScanMisses(index, ledger, init, at, d);
      }
      if child.Directory? {
        ScanGap(before, charged, child.children, here, d);
        if !Fit(child.children) {
          ScanMisses(before, charged, child.children, here, d);
        }
        UpdateGap(Scanned(before, child.children, here), ScanLedger(charged, child.children, here), here,
                  Direct(child), d);
      }
    }
  }

  // So a scan of a tree that does not fit misses bytes at one of the top-level directories.
  lemma {:induction false} TopMisses(index: Index, ledger: Ledger, cs: seq<Child>) returns (d: Path)
    requires (forall d: Path | |d| == 1 :: Gap(index, ledger, d) >= 0)
    requires Total(ledger) + Inner(cs) <= U64_MAX && !Fit(cs)
    ensures |d| == 1 && Gap(Scanned(index, cs, []), ScanLedger(ledger, cs, []), d) > 0
    decreases cs
  {
    hide *;
    if cs == [] {
      ScanNone(index, ledger, []);
    } else {
      var init, child, here := cs[..|cs| - 1], cs[|cs| - 1].entry, [] + [cs[|cs| - 1].name];
      var before, charged := Scanned(index, init, []), ScanLedger(ledger, init, []);
      ScanLast(index, ledger, cs, []);
      if !Fit(init) {
        d := TopMisses(index, ledger, init);
      } else {
        d := here;
        ScanGap(index, ledger, init, [], d);
      }
      if child.Directory? {
        ScanGap(before, charged, child.children, here, d);
        if Fit(init) && !Fit(child.children) {
          ScanMisses(before, charged, child.children, here, d);
        }
        UpdateGap(Scanned(before, child.children, here), ScanLedger(charged, child.children, here), here,
                  Direct(child), d);
      }
    }
  }

  // What the scan charges where: every directory it finds, its own length and its direct entries'.
  lemma {:induction false} ScanCharges(ledger: Ledger, cs: seq<Child>, at: Path, p: Path)
    requires Distinct(cs)
    ensures Charged(ScanLedger(ledger, cs, at), p)
      == Charged(ledger, p)
         + (if at < p && IsDirectoryAt(cs, p[|at|..]) then Direct(Lookup(cs, p[|at|..]).value) else 0)
    decreases cs
  {
    if cs != [] {
      var child, n := cs[|cs| - 1], |cs| - 1;
      var before, here := ScanLedger(ledger, cs[..n], at), at + [child.name];
      ScanCharges(ledger, cs[..n], at, p);
      ChildCases(at, child.name, p);
      if at < p && p[|at|] == child.name {
        LookupMissing(cs[..n], p[|at|..]);
      }
      if child.entry.Directory? {
        ScanCharges(before, child.entry.children, here, p);
      }
    }
  }

  // How a path below `at` relates to the child `name`.
  lemma ChildCases(at: Path, name: Name, p: Path)
    ensures at + [name] <= p <==> at < p && p[|at|] == name
    ensures at < p ==> p[|at|..][0] == p[|at|]
    ensures at + [name] < p ==> p[|at|..][1..] == p[|at + [name]|..]
    ensures at < p ==> (p == at + [name] <==> |p| == |at| + 1 && p[|at|] == name)
  {
    if at < p && p[|at|] == name {
      assert p[..|at| + 1] == at + [name];
    }
  }

  lemma {:induction false} LookupMissing(cs: seq<Child>, path: Path)
    requires path != [] && forall i | 0 <= i < |cs| :: cs[i].name != path[0]
    ensures Lookup(cs, path) == None
    decreases cs
  {
    if cs != [] {
      LookupMissing(cs[..|cs| - 1], path);
    }
  }

  // The scan records exactly the directories it finds, and the parents of any.
  lemma {:induction false} ScanRecords(index: Index, cs: seq<Child>, at: Path, p: Path)
    requires Distinct(cs)
    ensures p in Scanned(index, cs, at)
      <==> p in index || (at < p && IsDirectoryAt(cs, p[|at|..])) || (p != [] && p <= at && HoldsDirectory(cs))
    decreases cs
  {
    hide Updated;
    if cs != [] {
      var child, n := cs[|cs| - 1], |cs| - 1;
      var before, here := Scanned(index, cs[..n], at), at + [child.name];
      ScanRecords(index, cs[..n], at, p);
      ChildCases(at, child.name, p);
      if at < p && p[|at|] == child.name {
        LookupMissing(cs[..n], p[|at|..]);
      }
      if child.entry.Directory? {
        ScanRecords(before, child.entry.children, here, p);
        UpdatedRecords(Scanned(before, child.entry.children, here), here, WrapI64(WrapU64(Direct(child.entry))), p);
        PrefixOfChild(p, at, child.name);
      }
    }
  }

  lemma UpdatedRecords(index: Index, path: Path, delta: i64, p: Path)
    ensures p in Updated(index, path, delta) <==> p in index || (p != [] && p <= path)
  {
  }

  // The accounting state a scan of `root` leaves behind.
  ghost function ScanDisk(root: Entry, limit: i64): Disk
    requires root.Directory?
  {
    var index := Scanned(map[[] := 0], root.children, []);
    Disk(index, WrapU64(Direct(root) + Total(TopLevel(index))), limit)
  }

  // Every directory the scan finds, the root included, with its own length and its direct entries'.
  ghost function Contents(root: Entry): Ledger
    requires root.Directory?
  {
    Credit(ScanLedger(map[], root.children, []), [], Direct(root))
  }

  lemma RecordedWhere(root: Entry, p: Path)
    requires root.Directory? && Distinct(root.children)
    ensures p in ScanDisk(root, 0).index <==> p == [] || IsDirectoryAt(root.children, p)
    ensures Charged(Contents(root), p)
      == if p == [] then Direct(root)
         else if IsDirectoryAt(root.children, p) then Direct(Lookup(root.children, p).value) else 0
  {
    var cs := root.children;
    ScanRecords(map[[] := 0], cs, [], p);
    ScanCharges(map[], cs, [], p);
    hide Scanned;
    hide ScanLedger;
    assert p[0..] == p;
  }

  lemma ContentsGap(root: Entry, d: Path)
    requires root.Directory? && Direct(root) + Inner(root.children) <= U64_MAX && d != []
    ensures var gap := Gap(ScanDisk(root, 0).index, Contents(root), d);
      && gap >= 0 && (Fit(root.children) ==> gap == 0)
      && gap == Gap(Scanned(map[[] := 0], root.children, []), ScanLedger(map[], root.children, []), d)
  {
    var inner := ScanLedger(map[], root.children, []);
    NothingUsed(d);
    hide Scanned;
    hide ScanLedger;
    hide Used;
    ScanGap(map[[] := 0], map[], root.children, [], d);
    UsedSet(inner, [], Charged(inner, []) + Direct(root), d);
  }

  lemma ContentsTotal(root: Entry)
    requires root.Directory? && Distinct(root.children)
    ensures Total(Contents(root)) == Direct(root) + Inner(root.children)
  {
    var inner := ScanLedger(map[], root.children, []);
    ScanTotal(map[], root.children, []);
    hide ScanLedger;
    TotalSet(inner, [], Charged(inner, []) + Direct(root));
  }

  // The scan records exactly the root and the directories it finds, and what it charges to each is that
  // directory's own length and its direct entries'.
  lemma ScanFinds(root: Entry, limit: i64)
    requires root.Directory? && Distinct(root.children)
    ensures forall p ::
      p in ScanDisk(root, limit).index <==> p == [] || IsDirectoryAt(root.children, p)
    ensures forall p ::
      Charged(Contents(root), p)
      == if p == [] then Direct(root)
         else if IsDirectoryAt(root.children, p) then Direct(Lookup(root.children, p).value) else 0
  {
    var index, contents := ScanDisk(root, 0).index, Contents(root);
    forall p
      ensures p in index <==> p == [] || IsDirectoryAt(root.children, p)
      ensures Charged(contents, p)
        == if p == [] then Direct(root)
           else if IsDirectoryAt(root.children, p) then Direct(Lookup(root.children, p).value) else 0
    {
      RecordedWhere(root, p);
    }
  }

  lemma ContentsMisses(root: Entry) returns (d: Path)
    requires root.Directory? && Direct(root) + Inner(root.children) <= U64_MAX && !Fit(root.children)
    ensures |d| == 1 && Gap(ScanDisk(root, 0).index, Contents(root), d) > 0
  {
    forall p: Path | |p| == 1 ensures Gap(map[[] := 0], map[], p) >= 0 {
      NothingUsed(p);
    }
    hide Gap;
    hide Fit;
    d := TopMisses(map[[] := 0], map[], root.children);
    ContentsGap(root, d);
  }

  // Main result: for every directory tree whose lengths do not overflow, index and counter agree after the scan
  // with the ledger of what the tree holds exactly when no directory inside the root has lengths of its own and
  // its direct entries that turn negative in a signed 64-bit delta.
  lemma ScanSettles(root: Entry, limit: i64)
    requires root.Directory? && Distinct(root.children)
    requires Direct(root) + Inner(root.children) <= U64_MAX
    ensures Agrees(ScanDisk(root, limit), Contents(root)) <==> Fit(root.children)
  {
    var index, contents := ScanDisk(root, 0).index, Contents(root);
    if Fit(root.children) {
      forall d ensures AgreesAt(index, contents, d) {
        if d != [] {
          ContentsGap(root, d);
        }
      }
      RecordedWhere(root, []);
      ContentsTotal(root);
      hide Fit;
      StoredCounter(root, limit);
    } else {
      var d := ContentsMisses(root);
      assert !AgreesAt(index, contents, d);
    }
  }

  // So a run that starts from a scan keeps index, counter and ledger together in every state exactly when the
  // tree fits and every operation meets its guard.
  lemma {:induction false} ScanThenRun(root: Entry, limit: i64, ops: seq<Operation>)
    requires root.Directory? && Distinct(root.children)
    requires Direct(root) + Inner(root.children) <= U64_MAX
    requires Possible(ScanDisk(root, limit), Contents(root), ops)
    ensures AgreesThroughout(ScanDisk(root, limit), Contents(root), ops)
      <==> Fit(root.children) && SettlesThroughout(ScanDisk(root, limit), Contents(root), ops)
  {
    ScanSettles(root, limit);
    hide Agrees;
    hide SettlesThroughout;
    if Fit(root.children) {
      RunAgrees(ScanDisk(root, limit), Contents(root), ops);
    }
  }

  // What the top-level sizes miss of the whole is what is missed at the top-level directories.
  lemma CounterMisses(index: Index, contents: Ledger) returns (missed: Ledger)
    requires forall p: Path | |p| == 1 :: Gap(index, contents, p) >= 0
    ensures Total(contents) == Charged(contents, []) + Total(TopLevel(index)) + Total(missed)
    ensures forall p: Path | |p| == 1 :: Charged(missed, p) == Gap(index, contents, p)
    ensures forall p | p in missed :: |p| == 1
  {
    var tops := (set p | p in index && |p| == 1 :: p) + (set q | q in contents && q != [] :: q[..1]);
    missed := map p | p in tops :: Gap(index, contents, p) as nat;
    forall p: Path | |p| == 1 && p !in tops ensures Gap(index, contents, p) == 0 {
      forall q | q in contents ensures !(p <= q) {
        TopOf(p, q);
      }
      assert Below(contents, p) == map[];
    }
    hide Used;
    hide Total;
    var all := Merge(TopLevel(index), missed);
    TotalMerge(TopLevel(index), missed);
    forall p: Path | |p| == 1 ensures Charged(all, p) == Used(contents, p) {
      assert Charged(TopLevel(index), p) == SizeOr0(index, p);
    }
    TotalByTopLevel(contents, all);
  }

  lemma TopOf(p: Path, q: Path)
    ensures |p| == 1 && p <= q ==> q != [] && q[..1] == p
  {
  }

  // The stored counter has everything exactly when the tree fits.
  lemma StoredCounter(root: Entry, limit: i64)
    requires root.Directory? && Distinct(root.children)
    requires Direct(root) + Inner(root.children) <= U64_MAX
    ensures ScanDisk(root, limit).cached <= Total(Contents(root)) == Direct(root) + Inner(root.children)
    ensures ScanDisk(root, limit).cached == Total(Contents(root)) <==> Fit(root.children)
  {
    hide Contents;
    hide Gap;
    hide Fit;
    hide Total;
    hide Scanned;
    hide WrapU64;
    hide Direct;
    hide Inner;
    var index, contents := ScanDisk(root, 0).index, Contents(root);
    RecordedWhere(root, []);
    ContentsTotal(root);
    forall p: Path | |p| == 1
      ensures Gap(index, contents, p) >= 0 && (Fit(root.children) ==> Gap(index, contents, p) == 0)
    {
      ContentsGap(root, p);
    }
    var missed := CounterMisses(index, contents);
    DeltaOf(Direct(root) + Total(TopLevel(index)));
    if Fit(root.children) {
      forall p | p in missed && p != [] ensures missed[p] == 0 {
        assert Charged(missed, p) == Gap(index, contents, p);
      }
      ZeroTotal(missed);
    } else {
      var d := ContentsMisses(root);
      TotalSet(missed, d, 0);
      assert Charged(missed, d) == Gap(index, contents, d);
    }
  }

  // How one more entry counts.
  lemma OneMore(cs: seq<Child>)
    requires cs != []
    ensures var init, child := cs[..|cs| - 1], cs[|cs| - 1].entry;
      && Lengths(cs) == Lengths(init) + child.length
      && Inner(cs) == Inner(init) + (if child.Directory? then Direct(child) + Inner(child.children) else 0)
      && (child.Directory? && Direct(child) > I64_MAX ==> !Fit(cs))
      && ((Distinct(init) && (child.Directory? ==> Distinct(child.children))
           && forall i | 0 <= i < |init| :: init[i].name != cs[|cs| - 1].name)
          ==> Distinct(cs))
    ensures Lengths([]) == 0 && Inner([]) == 0 && Distinct([])
  {
  }

  // A directory with two files that add up to 2^63 is taken off where it should be added: the smallest tree
  // the scan gets wrong.
  lemma LargeDirectoryMissed(a: Name, b: Name, c: Name, limit: i64)
    requires b != c
    ensures var large := Directory(0, [Child(b, File(I64_MAX)), Child(c, File(1))]);
      var root := Directory(0, [Child(a, large)]);
      && Distinct(root.children) && Direct(root) + Inner(root.children) <= U64_MAX
      && !Agrees(ScanDisk(root, limit), Contents(root))
  {
    var files := [Child(b, File(I64_MAX)), Child(c, File(1))];
    var root := Directory(0, [Child(a, Directory(0, files))]);
    OneMore([Child(b, File(I64_MAX))]);
    OneMore(files);
    assert files[..1] == [Child(b, File(I64_MAX))] && files[..1][..0] == [];
    OneMore(root.children);
    assert root.children[..0] == [];
    ScanSettles(root, limit);
  }

  // Lengths of the files and of the directories inside `cs`.
  ghost function FileLengths(cs: seq<Child>): nat
    decreases cs
  {
    if cs == [] then 0
    else
      var child := cs[|cs| - 1].entry;
      FileLengths(cs[..|cs| - 1]) + if child.File? then child.length else FileLengths(child.children)
  }

  ghost function DirectoryLengths(cs: seq<Child>): nat
    decreases cs
  {
    if cs == [] then 0
    else
      var child := cs[|cs| - 1].entry;
      DirectoryLengths(cs[..|cs| - 1])
      + if child.File? then 0 else child.length + DirectoryLengths(child.children)
  }

  lemma {:induction false} LengthsAndInner(cs: seq<Child>)
    ensures Lengths(cs) + Inner(cs) == FileLengths(cs) + 2 * DirectoryLengths(cs)
    decreases cs
  {
    if cs != [] {
      LengthsAndInner(cs[..|cs| - 1]);
      var child := cs[|cs| - 1].entry;
      if child.Directory? {
        LengthsAndInner(child.children);
      }
    }
  }

  // The stored total counts every file once, every directory inside the root twice, and the root once, exactly
  // when the tree fits; otherwise it falls short.
  lemma StoredTotal(root: Entry, limit: i64)
    requires root.Directory? && Distinct(root.children)
    requires Direct(root) + Inner(root.children) <= U64_MAX
    ensures var whole := FileLengths(root.children) + 2 * DirectoryLengths(root.children) + root.length;
      && ScanDisk(root, limit).cached <= whole
      && (ScanDisk(root, limit).cached == whole <==> Fit(root.children))
  {
    StoredCounter(root, limit);
    LengthsAndInner(root.children);
  }
}
