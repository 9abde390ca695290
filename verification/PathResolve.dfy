/** Lexical path resolution: component by component, without looking at the disk. */
module PathResolve {
  datatype Component = RootDir | CurDir | ParentDir | Normal(name: string)

  type Components = seq<Component>

  // Component sequences a path can have: a root or a current directory only comes first.
  predicate IsPath(p: Components) {
    forall i | 0 < i < |p| :: p[i].ParentDir? || p[i].Normal?
  }

  predicate Absolute(p: Components) {
    p != [] && p[0] == RootDir
  }

  // The buffer after pushing one component: a root replaces it, a current directory only shows at the front.
  function Push(buffer: Components, c: Component): Components {
    if c.RootDir? then [RootDir]
    else if c.CurDir? && buffer != [] then buffer
    else buffer + [c]
  }

  function Step(buffer: Components, c: Component): Components {
    if !c.ParentDir? then Push(buffer, c)
    else if buffer != [] && !buffer[|buffer| - 1].RootDir? then buffer[..|buffer| - 1]
    else buffer
  }

  function Walk(buffer: Components, p: Components): Components {
    if p == [] then buffer else Step(Walk(buffer, p[..|p| - 1]), p[|p| - 1])
  }

  function Resolve(p: Components): Components {
    Walk([], p)
  }

  method ResolvePath(path: Components) returns (result: Components)
    ensures result == Resolve(path)
  {
    result := [];
    for i := 0 to |path|
      invariant result == Walk([], path[..i])
    {
      assert path[..i + 1][..i] == path[..i];
      if path[i].ParentDir? {
        if result != [] && result[|result| - 1] != RootDir {
          result := result[..|result| - 1];
        }
      } else {
        result := Push(result, path[i]);
      }
    }
    assert path[..|path|] == path;
  }

  // `p` with `q` appended; an absolute `q` replaces it.
  function Join(p: Components, q: Components): Components {
    if Absolute(q) || p == [] then q
    else p + if q != [] && q[0] == CurDir then q[1..] else q
  }

  // Resolved: a path without parent components.
  predicate Plain(p: Components) {
    IsPath(p) && ParentDir !in p
  }

  lemma {:induction false} WalkAppend(buffer: Components, p: Components, q: Components)
    ensures Walk(buffer, p + q) == Walk(Walk(buffer, p), q)
    decreases |q|
  {
    if q == [] {
      assert p + q == p;
    } else {
      assert (p + q)[..|p + q| - 1] == p + q[..|q| - 1];
      WalkAppend(buffer, p, q[..|q| - 1]);
    }
  }

  lemma {:induction false} WalkPlain(buffer: Components, p: Components)
    requires Plain(buffer) && IsPath(p) && (p != [] && buffer != [] ==> p[0].ParentDir? || p[0].Normal?)
    ensures Plain(Walk(buffer, p))
    decreases |p|
  {
    if p != [] {
      WalkPlain(buffer, p[..|p| - 1]);
    }
  }

  // A path without parent components is walked as it is.
  lemma {:induction false} WalkKeeps(buffer: Components, p: Components)
    requires Plain(p) && (p != [] && buffer != [] ==> p[0].Normal?)
    ensures Walk(buffer, p) == buffer + p
    decreases |p|
  {
    if p != [] {
      var init := p[..|p| - 1];
      WalkKeeps(buffer, init);
      assert p[|p| - 1] in p;
      assert buffer + p == (buffer + init) + [p[|p| - 1]];
    }
  }

  // Main result: what is resolved has no parent component, and resolving it again changes nothing.
  lemma ResolvePlain(p: Components)
    requires IsPath(p)
    ensures Plain(Resolve(p)) && Resolve(Resolve(p)) == Resolve(p)
    ensures Absolute(Resolve(p)) <==> Absolute(p)
  {
    WalkPlain([], p);
    WalkKeeps([], Resolve(p));
    RootStays([], p);
  }

  lemma {:induction false} RootStays(buffer: Components, p: Components)
    requires Plain(buffer) && IsPath(p) && (buffer != [] ==> p == [] || p[0].ParentDir? || p[0].Normal?)
    ensures Absolute(Walk(buffer, p)) <==> Absolute(buffer) || (buffer == [] && Absolute(p))
    decreases |p|
  {
    if p != [] {
      RootStays(buffer, p[..|p| - 1]);
      WalkPlain(buffer, p[..|p| - 1]);
    }
  }

  // Only a leading "." makes a difference to where a walk that starts nowhere ends, and then by itself only.
  lemma {:induction false} DotWalk(t: Components)
    requires forall i | 0 <= i < |t| :: t[i].ParentDir? || t[i].Normal?
    ensures var dotted, bare := Walk([CurDir], t), Walk([], t);
      && (dotted == [CurDir] + bare || dotted == bare)
      && (bare != [] ==> bare[0].Normal?)
    decreases |t|
  {
    if t == [] {
      assert [CurDir] + [] == [CurDir];
    } else {
      var init := t[..|t| - 1];
      DotWalk(init);
    }
  }

  // The path without a leading ".", which names the same place.
  function Undotted(p: Components): Components {
    if p != [] && p[0] == CurDir then p[1..] else p
  }

  // The one case in which resolving the first part beforehand shows: it resolves to nothing, and the second
  // keeps a leading "." that the join would have dropped.
  predicate DotAppears(p: Components, q: Components) {
    p != [] && Resolve(p) == [] && Resolve(q) != [] && Resolve(q)[0] == CurDir
  }

  // Main result: resolving a join is resolving the join with the first part resolved, exactly unless a "."
  // appears, and always up to that ".".
  lemma ResolveJoin(p: Components, q: Components)
    requires IsPath(p) && IsPath(q)
    ensures Resolve(Join(p, q)) == Resolve(Join(Resolve(p), q)) <==> !DotAppears(p, q)
    ensures Undotted(Resolve(Join(p, q))) == Undotted(Resolve(Join(Resolve(p), q)))
  {
    hide Walk;
    var r, t := Resolve(p), Undotted(q);
    WalkShort([]);
    ResolvePlain(q);
    if p != [] && !Absolute(q) {
      ResolvePlain(p);
      WalkAppend([], p, t);
      if r != [] {
        WalkKeeps([], r);
        assert [] + r == r;
        WalkAppend([], r, t);
      } else {
        DotWalk(t);
        if q != t {
          assert q == [CurDir] + t;
          WalkShort([CurDir]);
          WalkAppend([], [CurDir], t);
        } else {
          DotOnlyFromDot(q);
        }
      }
    }
  }

  lemma WalkShort(p: Components)
    ensures |p| <= 1 && (p != [] ==> p[0].CurDir?) ==> Walk([], p) == p
  {
    assert p != [] ==> p[..0] == [];
  }

  lemma DotOnlyFromDot(q: Components)
    requires IsPath(q) && !Absolute(q) && q == Undotted(q)
    ensures Resolve(q) != [] ==> Resolve(q)[0] != CurDir
  {
    DotWalk(q);
  }

  // ----- what a parent component takes off -----

  // Names and parent components only.
  predicate Climbing(p: Components) {
    forall i | 0 <= i < |p| :: p[i].Normal? || p[i].ParentDir?
  }

  lemma WalkTwo(buffer: Components, name: string)
    ensures Walk(buffer, [Normal(name), ParentDir]) == buffer
  {
    var two := [Normal(name), ParentDir];
    assert two[..1] == [Normal(name)] && [Normal(name)][..0] == [];
    assert Walk(buffer, [Normal(name)]) == buffer + [Normal(name)];
    assert (buffer + [Normal(name)])[..|buffer|] == buffer;
  }

  // Main result: a name and a parent component after it cancel, wherever they stand.
  lemma ParentCancels(p: Components, name: string, q: Components)
    requires IsPath(p) && Climbing(q)
    ensures Resolve(p + [Normal(name), ParentDir] + q) == Resolve(p + q)
  {
    WalkAppend([], p + [Normal(name), ParentDir], q);
    WalkAppend([], p, [Normal(name), ParentDir]);
    WalkTwo(Walk([], p), name);
    WalkAppend([], p, q);
  }

  lemma WalkOne(buffer: Components, c: Component)
    ensures Walk(buffer, [c]) == Step(buffer, c)
  {
    assert [c][..0] == [];
  }

  // Where there is no name to take off, a parent component has no effect at the start or at the root, and takes
  // a leading "." off.
  lemma ParentAtEdge(q: Components)
    requires Climbing(q)
    ensures Resolve([ParentDir] + q) == Resolve(q)
    ensures Resolve([RootDir, ParentDir] + q) == Resolve([RootDir] + q)
    ensures Resolve([CurDir, ParentDir] + q) == Resolve(q)
  {
    hide Walk;
    WalkOne([], ParentDir);
    WalkOne([], RootDir);
    WalkOne([], CurDir);
    WalkOne([RootDir], ParentDir);
    WalkOne([CurDir], ParentDir);
    WalkAppend([], [ParentDir], q);
    WalkAppend([], [RootDir], [ParentDir]);
    WalkAppend([], [CurDir], [ParentDir]);
    assert [RootDir] + [ParentDir] == [RootDir, ParentDir] && [CurDir] + [ParentDir] == [CurDir, ParentDir];
    WalkAppend([], [RootDir, ParentDir], q);
    WalkAppend([], [CurDir, ParentDir], q);
    WalkAppend([], [RootDir], q);
    assert [] + [CurDir] == [CurDir] && [CurDir][..0] == [];
    assert Step([CurDir], ParentDir) == [];
  }

  // Parent components at the end take the names off one by one, from the last.
  lemma {:induction false} ParentsClimb(p: Components, names: seq<string>, climbs: nat)
    requires IsPath(p) && climbs <= |names|
    ensures Resolve(p + Normals(names) + seq(climbs, _ => ParentDir))
      == Resolve(p + Normals(names[..|names| - climbs]))
    decreases climbs
  {
    if climbs == 0 {
      assert p + Normals(names) + seq(climbs, _ => ParentDir) == p + Normals(names) && names[..|names|] == names;
    } else {
      var init, last := names[..|names| - 1], names[|names| - 1];
      var fewer := seq(climbs - 1, _ => ParentDir);
      assert Normals(names) == Normals(init) + [Normal(last)];
      assert p + Normals(names) + seq(climbs, _ => ParentDir)
        == (p + Normals(init)) + [Normal(last), ParentDir] + fewer;
      ParentCancels(p + Normals(init), last, fewer);
      ParentsClimb(p, init, climbs - 1);
      assert init[..|init| - (climbs - 1)] == names[..|names| - climbs];
    }
  }

  function Normals(names: seq<string>): (p: Components)
    ensures |p| == |names| && forall i | 0 <= i < |p| :: p[i] == Normal(names[i])
  {
    if names == [] then [] else Normals(names[..|names| - 1]) + [Normal(names[|names| - 1])]
  }

  // ----- paths below the server's base directory -----

  // The path without the base, or without its root, in front.
  function Below(base: Components, path: Components): Components {
    if base <= path then path[|base|..] else if Absolute(path) then path[1..] else path
  }

  function RelativePath(base: Components, path: Components): Components {
    Resolve(Below(base, path))
  }

  // A configured base directory: absolute and already resolved.
  predicate IsBase(base: Components) {
    Absolute(base) && Plain(base)
  }

  // Main result: a relative path is relative whatever was asked for, is its own relative path, and joined to
  // the base stays below it.
  lemma RelativeStaysBelow(base: Components, path: Components)
    requires IsBase(base) && IsPath(path)
    ensures var r := RelativePath(base, path);
      && Plain(r) && !Absolute(r)
      && RelativePath(base, r) == r
      && base <= Resolve(Join(base, r))
      && Resolve(Join(base, r)) == base + Undotted(r) == Join(base, r)
  {
    var inside := Below(base, path);
    var r := RelativePath(base, path);
    assert IsPath(inside) && !Absolute(inside);
    ResolvePlain(inside);
    assert !(base <= r) by {
      assert base[0] == RootDir;
    }
    assert RelativePath(base, r) == Resolve(r) == r;
    JoinBelow(base, r);
  }

  lemma UndottedPlain(r: Components)
    requires Plain(r) && !Absolute(r)
    ensures Plain(Undotted(r)) && (Undotted(r) != [] ==> Undotted(r)[0].Normal?)
  {
    var u := Undotted(r);
    if u != [] {
      assert u[0] in r;
    }
    assert forall c | c in u :: c in r;
  }

  lemma JoinBelow(base: Components, r: Components)
    requires IsBase(base) && Plain(r) && !Absolute(r)
    ensures Join(base, r) == base + Undotted(r) == Resolve(Join(base, r))
  {
    var u := Undotted(r);
    UndottedPlain(r);
    hide Plain;
    hide Walk;
    WalkAppend([], base, u);
    WalkKeeps([], base);
    WalkKeeps(base, u);
    assert [] + base == base;
    assert Join(base, r) == base + u;
  }

  // A path asked for below the base is the path asked for without it, when it does not climb.
  lemma RelativeOfBelow(base: Components, path: Components)
    requires IsBase(base) && Plain(path) && !Absolute(path)
    ensures RelativePath(base, Join(base, path)) == Undotted(path)
    ensures RelativePath(base, path) == path
  {
    var below := Undotted(path);
    assert Join(base, path) == base + below && (base + below)[|base|..] == below;
    UndottedPlain(path);
    assert !(base <= path) by {
      assert base[0] == RootDir;
    }
    hide Plain;
    hide Walk;
    WalkKeeps([], below);
    WalkKeeps([], path);
    assert [] + below == below && [] + path == path;
  }

  function Text(c: Component): string {
    match c
    case RootDir => "/"
    case CurDir => "."
    case ParentDir => ".."
    case Normal(name) => name
  }

  // The names under which a path is charged in the size index.
  function PathToComponents(base: Components, path: Components): seq<string> {
    Names(RelativePath(base, path))
  }

  function Names(p: Components): seq<string> {
    if p == [] then [] else [Text(p[0])] + Names(p[1..])
  }

  // Every way of asking for a place by its names, below the base, below the root or from nowhere, is charged
  // under those names.
  lemma {:induction false} NamesCharged(base: Components, names: seq<string>)
    requires IsBase(base)
    ensures PathToComponents(base, Normals(names)) == names
    ensures PathToComponents(base, base + Normals(names)) == names
    ensures !(base <= [RootDir] + Normals(names)) ==> PathToComponents(base, [RootDir] + Normals(names)) == names
  {
    var p := Normals(names);
    assert base[0] == RootDir && !(base <= p);
    assert (base + p)[|base|..] == p && ([RootDir] + p)[1..] == p;
    hide Normals;
    NamesAt(base, p, names);
    NamesAt(base, base + p, names);
    if !(base <= [RootDir] + p) {
      NamesAt(base, [RootDir] + p, names);
    }
  }

  lemma NamesAt(base: Components, path: Components, names: seq<string>)
    requires Below(base, path) == Normals(names)
    ensures PathToComponents(base, path) == names
  {
    var p := Normals(names);
    assert Plain(p);
    assert [] + p == p;
    hide Normals;
    hide Plain;
    hide Walk;
    WalkKeeps([], p);
    NamesOfNormals(names);
  }

  lemma {:induction false} NamesOfNormals(names: seq<string>)
    ensures Names(Normals(names)) == names
    decreases |names|
  {
    if names != [] {
      assert Normals(names)[1..] == Normals(names[1..]);
      NamesOfNormals(names[1..]);
    }
  }

  // An absolute path that is not below the base is taken as one from the root of the base.
  lemma RootDropped(base: Components, path: Components)
    requires Absolute(path) && !(base <= path)
    ensures RelativePath(base, path) == Resolve(path[1..])
  {
  }

  // "./x" and "x" are one place, but are charged under different names: the leading "." is kept.
  lemma LeadingDotCharged(base: Components, path: Components)
    requires IsBase(base) && Plain(path) && !Absolute(path) && (path != [] ==> path[0].Normal?)
    ensures PathToComponents(base, [CurDir] + path) == ["."] + PathToComponents(base, path)
    ensures Join(base, [CurDir] + path) == Join(base, path)
  {
    var dotted := [CurDir] + path;
    assert dotted[1..] == path;
    assert Names(dotted) == ["."] + Names(path);
    assert !Absolute(dotted) && Join(base, dotted) == base + path == Join(base, path);
    hide Plain;
    hide RelativePath;
    hide Names;
    hide IsBase;
    RelativeOfBelow(base, dotted);
    RelativeOfBelow(base, path);
  }

  lemma {:induction false} NamesLength(p: Components)
    ensures |Names(p)| == |p|
  {
    if p != [] {
      NamesLength(p[1..]);
    }
  }

  predicate Dotted(p: Components) {
    p != [] && p[0] == CurDir
  }

  // How far below where it starts a path without a root ends, if it never goes above.
  function Depth(p: Components): int {
    if p == [] then 0
    else
      Depth(p[..|p| - 1])
      + if p[|p| - 1].Normal? then 1 else if p[|p| - 1].ParentDir? then -1 else 0
  }

  // The path starts with "." and at no point has more parent components than names.
  predicate KeepsDot(p: Components) {
    Dotted(p) && forall i | 0 <= i <= |p| :: Depth(p[..i]) >= 0
  }

  // A walk from "." is still there exactly as long as the path has not gone above it.
  lemma {:induction false} DottedWalk(p: Components)
    requires IsPath(p) && Dotted(p)
    ensures Dotted(Walk([], p)) <==> KeepsDot(p)
    ensures KeepsDot(p) ==> |Walk([], p)| == Depth(p) + 1
    decreases |p|
  {
    var init, c := p[..|p| - 1], p[|p| - 1];
    PrefixKeeps(p);
    if init == [] {
      assert p == [CurDir] && Walk([], init) == [] && Depth(init) == 0;
      assert Depth(p) == 0;
    } else {
      DottedWalk(init);
      WalkPlain([], init);
      hide Walk;
    }
  }

  lemma PrefixKeeps(p: Components)
    requires p != [] && Dotted(p)
    ensures |p| > 1 ==> (KeepsDot(p) <==> KeepsDot(p[..|p| - 1]) && Depth(p) >= 0)
  {
    var init := p[..|p| - 1];
    assert p[..|p|] == p;
    if |p| > 1 {
      assert forall i | 0 <= i <= |init| :: init[..i] == p[..i];
    }
  }

  lemma RelativeKeepsDot(base: Components, path: Components)
    requires IsBase(base) && IsPath(path)
    ensures Dotted(RelativePath(base, path)) <==> KeepsDot(Below(base, path))
  {
    var p := Below(base, path);
    if Dotted(p) {
      DottedWalk(p);
    } else {
      DotOnlyFromDot(p);
    }
  }

  // Main result: two paths name one place below the base exactly when they differ by a leading "." at most,
  // and they are then charged under the same names exactly when both or neither start with one and do not go
  // above it.
  lemma SpellingsCharged(base: Components, p: Components, q: Components)
    requires IsBase(base) && IsPath(p) && IsPath(q)
    ensures var r, t := RelativePath(base, p), RelativePath(base, q);
      && (Join(base, r) == Join(base, t) <==> Undotted(r) == Undotted(t))
      && (Undotted(r) == Undotted(t) ==>
            (PathToComponents(base, p) == PathToComponents(base, q)
             <==> (KeepsDot(Below(base, p)) <==> KeepsDot(Below(base, q)))))
  {
    hide *;
    var r, t := RelativePath(base, p), RelativePath(base, q);
    RelativeKeepsDot(base, p);
    RelativeKeepsDot(base, q);
    RelativeStaysBelow(base, p);
    RelativeStaysBelow(base, q);
    SameTail(base, Undotted(r), Undotted(t));
    NamesOf(base, p);
    NamesOf(base, q);
    if Undotted(r) == Undotted(t) {
      NamesTell(r, t);
    }
  }

  lemma SameTail(base: Components, p: Components, q: Components)
    ensures base + p == base + q <==> p == q
  {
    assert (base + p)[|base|..] == p && (base + q)[|base|..] == q;
  }

  lemma NamesOf(base: Components, path: Components)
    ensures PathToComponents(base, path) == Names(RelativePath(base, path))
  {
  }

  lemma NamesTell(p: Components, q: Components)
    requires Undotted(p) == Undotted(q)
    ensures Names(p) == Names(q) <==> (Dotted(p) <==> Dotted(q))
  {
    NamesLength(p);
    NamesLength(q);
    hide Names;
    if Dotted(p) && Dotted(q) {
      assert p == [CurDir] + p[1..] && q == [CurDir] + q[1..];
    }
  }
}
