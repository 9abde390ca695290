/** The flat ledger the index and the cached counter stand in for: bytes charged directly to each directory. */
module Ledgers {
  import opened PathMaps

  type Ledger = map<Path, nat>

  ghost function Charged(ledger: Ledger, p: Path): nat {
    if p in ledger then ledger[p] else 0
  }

  ghost function Total(ledger: Ledger): nat {
    if ledger == map[] then 0
    else
      var p :| p in ledger;
      ledger[p] + Total(ledger - {p})
  }

  ghost function Below(ledger: Ledger, d: Path): Ledger {
    map p | p in ledger && d <= p :: ledger[p]
  }

  // The bytes at or below `d`.
  ghost function Used(ledger: Ledger, d: Path): nat {
    Total(Below(ledger, d))
  }

  ghost function Merge(a: Ledger, b: Ledger): Ledger {
    map p | p in a.Keys + b.Keys :: Charged(a, p) + Charged(b, p)
  }

  // `ledger` re-rooted at `at`.
  ghost function Shift(ledger: Ledger, at: Path): Ledger {
    Graft(map[], at, ledger)
  }

  // The bytes at and below `from` now counted at the same place below `to`.
  ghost function Moved(ledger: Ledger, from: Path, to: Path): Ledger {
    Merge(Prune(ledger, from), Shift(Subtree(ledger, from), to))
  }

  lemma {:induction false} TotalWithout(ledger: Ledger, p: Path)
    requires p in ledger
    ensures Total(ledger) == ledger[p] + Total(ledger - {p})
    decreases |ledger|
  {
    var q :| q in ledger && Total(ledger) == ledger[q] + Total(ledger - {q});
    if q != p {
      TotalWithout(ledger - {q}, p);
      TotalWithout(ledger - {p}, q);
      assert ledger - {q} - {p} == ledger - {p} - {q};
    }
  }

  lemma TotalSet(ledger: Ledger, p: Path, bytes: nat)
    ensures Total(ledger[p := bytes]) == Total(ledger) - Charged(ledger, p) + bytes
    ensures Charged(ledger, p) <= Total(ledger)
  {
    var set' := ledger[p := bytes];
    TotalWithout(set', p);
    if p in ledger {
      TotalWithout(ledger, p);
      assert set' - {p} == ledger - {p};
    } else {
      assert set' - {p} == ledger;
    }
  }

  lemma UsedSet(ledger: Ledger, p: Path, bytes: nat, d: Path)
    ensures Used(ledger[p := bytes], d)
      == if d <= p then Used(ledger, d) - Charged(ledger, p) + bytes else Used(ledger, d)
    ensures d <= p ==> Charged(ledger, p) <= Used(ledger, d)
  {
    var below := Below(ledger, d);
    if d <= p {
      assert Below(ledger[p := bytes], d) == below[p := bytes];
      TotalSet(below, p, bytes);
    } else {
      assert Below(ledger[p := bytes], d) == below;
    }
  }

  lemma MergeStep(a: Ledger, b: Ledger, p: Path)
    ensures p in b ==> Merge(a, b) == Merge(a[p := Charged(a, p) + b[p]], b - {p})
  {
  }

  lemma {:induction false} TotalMerge(a: Ledger, b: Ledger)
    ensures Total(Merge(a, b)) == Total(a) + Total(b)
    decreases |b|
  {
    if b == map[] {
      assert Merge(a, b) == a;
    } else {
      var p :| p in b;
      MergeStep(a, b, p);
      hide Merge;
      TotalMerge(a[p := Charged(a, p) + b[p]], b - {p});
      TotalSet(a, p, Charged(a, p) + b[p]);
      TotalWithout(b, p);
    }
  }

  lemma UsedMerge(a: Ledger, b: Ledger, d: Path)
    ensures Used(Merge(a, b), d) == Used(a, d) + Used(b, d)
  {
    assert Below(Merge(a, b), d) == Merge(Below(a, d), Below(b, d));
    TotalMerge(Below(a, d), Below(b, d));
  }

  lemma UsedSplit(ledger: Ledger, at: Path, d: Path)
    ensures Used(ledger, d)
      == Used(Prune(ledger, at), d) + (if d <= at then Used(ledger, at) else if at <= d then Used(ledger, d) else 0)
  {
    var kept, part := Prune(ledger, at), Below(ledger, at);
    assert ledger == Merge(kept, part);
    UsedMerge(kept, part, d);
    if d <= at {
      assert Below(part, d) == part;
    } else if at <= d {
      assert Below(part, d) == Below(ledger, d);
    } else {
      forall p | p in part ensures !(d <= p) {
        if d <= p {
          Comparable(at, d, p);
        }
      }
      assert Below(part, d) == map[];
    }
  }

  lemma Comparable(a: Path, b: Path, p: Path)
    requires a <= p && b <= p
    ensures a <= b || b <= a
  {
    if |a| <= |b| {
      assert a == b[..|a|];
    } else {
      assert b == a[..|b|];
    }
  }

  lemma {:induction false} UsedMonotone(ledger: Ledger, at: Path, d: Path)
    requires d <= at
    ensures Used(ledger, at) <= Used(ledger, d) <= Total(ledger)
    ensures Used(ledger, []) == Total(ledger)
  {
    UsedSplit(ledger, at, d);
    UsedSplit(ledger, d, []);
    assert Below(ledger, []) == ledger;
  }

  lemma {:induction false} TotalShift(ledger: Ledger, at: Path)
    ensures Total(Shift(ledger, at)) == Total(ledger)
    decreases |ledger|
  {
    if ledger == map[] {
      assert Shift(ledger, at) == map[];
    } else {
      var p :| p in ledger;
      ShiftWithout(ledger, at, p);
      hide Shift;
      TotalShift(ledger - {p}, at);
      TotalWithout(Shift(ledger, at), at + p);
      TotalWithout(ledger, p);
    }
  }

  // What a shifted ledger charges where.
  lemma ShiftAt(ledger: Ledger, at: Path, p: Path)
    ensures p in Shift(ledger, at) <==> at <= p && p[|at|..] in ledger
    ensures at <= p && p[|at|..] in ledger ==> Shift(ledger, at)[p] == ledger[p[|at|..]]
    ensures at <= p ==> p == at + p[|at|..]
  {
  }

  lemma ShiftWithout(ledger: Ledger, at: Path, p: Path)
    requires p in ledger
    ensures var shifted := Shift(ledger, at);
      at + p in shifted && shifted[at + p] == ledger[p] && shifted - {at + p} == Shift(ledger - {p}, at)
  {
    var whole, less := Shift(ledger, at) - {at + p}, Shift(ledger - {p}, at);
    hide Shift;
    assert (at + p)[|at|..] == p;
    ShiftAt(ledger, at, at + p);
    forall q
      ensures q in whole <==> q in less
      ensures q in whole ==> whole[q] == less[q]
    {
      ShiftAt(ledger, at, q);
      ShiftAt(ledger - {p}, at, q);
    }
  }

  // Bytes shifted below `at`, seen from `d`.
  lemma UsedShift(ledger: Ledger, at: Path, d: Path)
    ensures Used(Shift(ledger, at), d)
      == if d <= at then Total(ledger) else if at <= d then Used(ledger, d[|at|..]) else 0
  {
    var shifted := Shift(ledger, at);
    hide Shift;
    hide Total;
    if at <= d && d != at {
      var rest := d[|at|..];
      var here, there := Below(shifted, d), Shift(Below(ledger, rest), at);
      assert d == at + rest;
      forall q
        ensures q in here <==> q in there
        ensures q in here ==> here[q] == there[q]
      {
        ShiftAt(ledger, at, q);
        ShiftAt(Below(ledger, rest), at, q);
      }
      assert here == there;
      TotalShift(Below(ledger, rest), at);
    } else {
      forall p ensures p in shifted ==> at <= p && (d <= p <==> d <= at) {
        ShiftAt(ledger, at, p);
        if at <= p && d <= p {
          Comparable(at, d, p);
        }
      }
      if d <= at {
        assert Below(shifted, d) == shifted;
        TotalShift(ledger, at);
      } else {
        assert Below(shifted, d) == map[];
        NothingUsed(d);
      }
    }
  }

  lemma NothingUsed(d: Path)
    ensures Used(map[], d) == 0 && Total(map[]) == 0
  {
    assert Below(map[], d) == map[];
  }

  lemma ShiftSubtree(ledger: Ledger, at: Path)
    ensures Shift(Subtree(ledger, at), at) == Below(ledger, at)
  {
    var shifted, below := Shift(Subtree(ledger, at), at), Below(ledger, at);
    hide Shift;
    hide Subtree;
    forall p
      ensures p in shifted <==> p in below
      ensures p in shifted ==> shifted[p] == below[p]
    {
      ShiftAt(Subtree(ledger, at), at, p);
    }
  }

  lemma UsedSubtree(ledger: Ledger, at: Path, d: Path)
    ensures Used(Subtree(ledger, at), d) == Used(ledger, at + d)
    ensures Total(Subtree(ledger, at)) == Used(ledger, at)
  {
    var sub := Subtree(ledger, at);
    assert Below(Below(ledger, at), at + d) == Below(ledger, at + d);
    assert Used(Below(ledger, at), at + d) == Used(ledger, at + d);
    hide *;
    ShiftSubtree(ledger, at);
    TotalShift(sub, at);
    UsedShift(sub, at, at + d);
    assert (at + d)[|at|..] == d;
    assert at + d <= at ==> d == [];
    UsedMonotone(sub, [], []);
  }

  // A move takes the source's bytes off every directory above it and puts them on every directory above
  // the target; below the target the moved bytes join what was there.
  lemma UsedMoved(ledger: Ledger, from: Path, to: Path, d: Path)
    ensures Used(Moved(ledger, from, to), d)
      == Used(Prune(ledger, from), d)
         + (if d <= to then Used(ledger, from) else if to <= d then Used(ledger, from + d[|to|..]) else 0)
    ensures Total(Moved(ledger, from, to)) == Total(ledger)
  {
    hide Used;
    hide Total;
    hide Merge;
    hide Shift;
    hide Prune;
    hide Subtree;
    var kept, sub := Prune(ledger, from), Subtree(ledger, from);
    UsedMerge(kept, Shift(sub, to), d);
    UsedShift(sub, to, d);
    TotalMerge(kept, Shift(sub, to));
    TotalShift(sub, to);
    TotalSplit(ledger, from);
    UsedSubtree(ledger, from, if to <= d then d[|to|..] else []);
  }

  lemma TotalSplit(ledger: Ledger, at: Path)
    ensures Total(ledger) == Total(Prune(ledger, at)) + Used(ledger, at)
  {
    UsedSplit(ledger, at, []);
    UsedMonotone(ledger, [], []);
    UsedMonotone(Prune(ledger, at), [], []);
  }
}
