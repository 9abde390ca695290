/** Maps keyed by directory paths, cut and joined along path prefixes. */
module PathMaps {
  // A directory, as its components below the server's base directory; [] is the base itself.
  type Path = seq<Name>

  // One component of a path.
  type Name = string

  function Parent(p: Path): Path
    requires p != []
  {
    p[..|p| - 1]
  }

  function Last(p: Path): Name
    requires p != []
  {
    p[|p| - 1]
  }

  // The entries that are not at or below `at`.
  function Prune<T>(m: map<Path, T>, at: Path): (kept: map<Path, T>)
    ensures forall p :: p in kept <==> p in m && !(at <= p)
    ensures forall p :: p in kept ==> kept[p] == m[p]
  {
    map p | p in m && !(at <= p) :: m[p]
  }

  // The entries at or below `at`, re-rooted there.
  function Subtree<T>(m: map<Path, T>, at: Path): (sub: map<Path, T>)
    ensures forall q :: q in sub <==> at + q in m
    ensures forall q :: q in sub ==> sub[q] == m[at + q]
  {
    assert forall p, q | at <= p && at <= q && p[|at|..] == q[|at|..] ::
      p == at + p[|at|..] && q == at + q[|at|..];
    assert forall q: Path :: (at + q)[|at|..] == q;
    map p | p in m && at <= p :: p[|at|..] := m[p]
  }

  // `sub` hung below `at`, replacing whatever was there.
  function Graft<T>(m: map<Path, T>, at: Path, sub: map<Path, T>): (all: map<Path, T>)
    ensures forall p :: p in all <==> if at <= p then p[|at|..] in sub else p in m
    ensures forall p :: p in all ==> all[p] == if at <= p then sub[p[|at|..]] else m[p]
  {
    assert forall q, r: Path | at + q == at + r :: q == (at + q)[|at|..] && r == (at + r)[|at|..];
    assert forall p: Path | at <= p :: p == at + p[|at|..];
    assert forall q: Path :: (at + q)[|at|..] == q && at <= at + q;
    Prune(m, at) + map q | q in sub :: at + q := sub[q]
  }

  // The non-empty prefixes of `path`.
  function Prefixes(path: Path): (ps: set<Path>)
    ensures forall p :: p in ps <==> p != [] && p <= path
  {
    assert forall p: Path | p <= path :: p == path[..|p|];
    set i | 1 <= i <= |path| :: path[..i]
  }

  // Every recorded path has its parent recorded, up to the root.
  ghost predicate Rooted<T>(m: map<Path, T>) {
    [] in m && forall p: Path, name | p + [name] in m :: p in m
  }

  ghost predicate Apart<T>(m: map<Path, T>, p: Path, q: Path) {
    p in m && q in m && p != q ==> m[p] != m[q]
  }

  ghost predicate Injective<T>(m: map<Path, T>) {
    forall p, q :: Apart(m, p, q)
  }

  lemma {:induction false} PrefixRecorded<T>(m: map<Path, T>, p: Path, i: nat)
    requires Rooted(m) && p in m && i <= |p|
    ensures p[..i] in m
    decreases |p|
  {
    if i == |p| {
      assert p[..i] == p;
    } else {
      assert p == Parent(p) + [Last(p)];
      PrefixRecorded(m, Parent(p), i);
      assert Parent(p)[..i] == p[..i];
    }
  }

  lemma ChildPathUnique(p: Path, n: Name, q: Path, o: Name)
    requires p + [n] == q + [o]
    ensures p == q && n == o
  {
    assert p == Parent(p + [n]) && q == Parent(q + [o]);
    assert n == Last(p + [n]) && o == Last(q + [o]);
  }

  lemma PrefixOfChild(target: Path, p: Path, n: Name)
    ensures target <= p + [n] <==> target <= p || target == p + [n]
  {
    if target <= p + [n] && target != p + [n] {
      assert target == (p + [n])[..|target|] == p[..|target|];
    }
  }

  lemma ProperPrefixOfChild(p: Path, at: Path, name: Name)
    ensures p < at + [name] <==> p < at || p == at
  {
    var next := at + [name];
    if p < next {
      assert p == next[..|p|] == at[..|p|];
    }
  }

  lemma ChildBelow(target: Path, p: Path, n: Name)
    ensures target + (p + [n]) == (target + p) + [n]
  {
  }

  lemma RootedSubtree<T>(m: map<Path, T>, target: Path)
    requires Rooted(m) && target in m
    ensures Rooted(Subtree(m, target))
  {
    var sub := Subtree(m, target);
    hide Subtree;
    assert target + [] == target;
    forall p: Path, n | p + [n] in sub ensures p in sub {
      ChildBelow(target, p, n);
    }
  }

  lemma InjectiveSubtree<T>(m: map<Path, T>, target: Path)
    requires Injective(m)
    ensures Injective(Subtree(m, target))
  {
    var sub := Subtree(m, target);
    hide Subtree;
    forall p, q ensures Apart(sub, p, q) {
      assert Apart(m, target + p, target + q);
      assert p == (target + p)[|target|..] && q == (target + q)[|target|..];
    }
  }

  lemma RootedGraft<T>(m: map<Path, T>, at: Path, name: Name, sub: map<Path, T>)
    requires Rooted(m) && at in m && Rooted(sub)
    ensures Rooted(Graft(m, at + [name], sub))
  {
    var target, all := at + [name], Graft(m, at + [name], sub);
    hide Graft;
    forall p: Path, n | p + [n] in all ensures p in all {
      PrefixOfChild(target, p, n);
      if target <= p {
        assert (p + [n])[|target|..] == p[|target|..] + [n];
      } else if target <= p + [n] {
        ChildPathUnique(p, n, at, name);
      }
    }
    assert !(target <= []);
  }

  lemma InjectiveGraft<T>(m: map<Path, T>, target: Path, sub: map<Path, T>)
    requires Injective(m) && Injective(sub) && m.Values !! sub.Values
    ensures Injective(Graft(m, target, sub))
  {
    var all := Graft(m, target, sub);
    hide Graft;
    forall p, q ensures Apart(all, p, q) {
      if p in all && q in all && p != q {
        if target <= p && target <= q {
          assert p == target + p[|target|..] && q == target + q[|target|..];
          assert Apart(sub, p[|target|..], q[|target|..]);
        } else if target <= p {
          assert all[p] in sub.Values && all[q] in m.Values;
        } else if target <= q {
          assert all[q] in sub.Values && all[p] in m.Values;
        } else {
          assert Apart(m, p, q);
        }
      }
    }
  }

  lemma RootedPrune<T>(m: map<Path, T>, target: Path)
    requires Rooted(m) && target != []
    ensures Rooted(Prune(m, target))
  {
    assert !(target <= []);
    forall p: Path, n | p + [n] in Prune(m, target) ensures p in Prune(m, target) {
      PrefixOfChild(target, p, n);
    }
  }

  lemma MissingBelow<T>(m: map<Path, T>, at: Path, path: Path)
    requires Rooted(m) && path != [] && at + [path[0]] !in m
    ensures at + path !in m
  {
    assert (at + path)[..|at| + 1] == at + [path[0]];
    if at + path in m {
      PrefixRecorded(m, at + path, |at| + 1);
    }
  }

  lemma InjectivePrune<T>(m: map<Path, T>, target: Path)
    requires Injective(m)
    ensures Injective(Prune(m, target))
  {
    forall p, q ensures Apart(Prune(m, target), p, q) {
      assert Apart(m, p, q);
    }
  }

  lemma SplitDisjoint<T>(m: map<Path, T>, target: Path)
    requires Injective(m)
    ensures Prune(m, target).Values !! Subtree(m, target).Values
  {
    var kept, below := Prune(m, target), Subtree(m, target);
    forall p, q | p in kept && q in below ensures kept[p] != below[q] {
      assert Apart(m, p, target + q);
    }
  }

  lemma InjectiveAdded<T>(m: map<Path, T>, at: Path, value: T)
    requires Injective(m) && value !in m.Values
    ensures Injective(m[at := value])
  {
    var grown := m[at := value];
    forall p, q ensures Apart(grown, p, q) {
      assert Apart(m, p, q);
    }
  }

  // What a pruned map records at `p` and at its child `n`.
  lemma PrunedChild<T>(m: map<Path, T>, at: Path, name: Name, p: Path, n: Name)
    ensures var target, kept := at + [name], Prune(m, at + [name]);
      && (p in kept <==> p in m && !(target <= p))
      && (p + [n] in kept <==> p + [n] in m && !(target <= p) && !(p == at && n == name))
  {
    PrefixOfChild(at + [name], p, n);
    if at + [name] == p + [n] {
      ChildPathUnique(p, n, at, name);
    }
  }

  // What a graft records at `p` and at its child `n`.
  lemma GraftedChild<T>(m: map<Path, T>, at: Path, name: Name, sub: map<Path, T>, p: Path, n: Name)
    ensures var target, all := at + [name], Graft(m, at + [name], sub);
      if target <= p then
        && (p in all <==> p[|target|..] in sub)
        && (p in all ==> all[p] == sub[p[|target|..]])
        && (p + [n] in all <==> p[|target|..] + [n] in sub)
        && (p + [n] in all ==> all[p + [n]] == sub[p[|target|..] + [n]])
      else
        && (p in all <==> p in m)
        && (p in all ==> all[p] == m[p])
        && (p + [n] in all <==> if p == at && n == name then [] in sub else p + [n] in m)
        && (p + [n] in all ==> all[p + [n]] == if p == at && n == name then sub[[]] else m[p + [n]])
  {
    var target, all := at + [name], Graft(m, at + [name], sub);
    hide Graft;
    PrefixOfChild(target, p, n);
    if target <= p {
      assert (p + [n])[|target|..] == p[|target|..] + [n];
    } else if target == p + [n] {
      ChildPathUnique(p, n, at, name);
      assert target[|target|..] == [];
    }
  }

  lemma GraftValues<T>(m: map<Path, T>, at: Path, sub: map<Path, T>)
    ensures Graft(m, at, sub).Values <= m.Values + sub.Values
  {
  }

  lemma RootedAdded<T>(m: map<Path, T>, at: Path, name: Name, value: T)
    requires Rooted(m) && at in m
    ensures Rooted(m[at + [name] := value])
  {
    forall p: Path, n | p + [n] == at + [name] ensures p == at {
      ChildPathUnique(p, n, at, name);
    }
  }
}
