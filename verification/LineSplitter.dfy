/** The incremental splitter that cuts a container's output into console lines. */
module LineSplitter {
  import opened Basics

  type Byte = bv8

  const NEWLINE: Byte := 10
  const MAX_LINE: nat := 512

  // A cut of the stream; `ended` says that a newline was consumed after it.
  datatype Slice = Slice(bytes: seq<Byte>, ended: bool)

  // The position of the first newline, or the length when there is none.
  function FirstNewline(s: seq<Byte>): (n: nat)
    ensures n <= |s|
  {
    if s == [] || s[0] == NEWLINE then 0 else 1 + FirstNewline(s[1..])
  }

  lemma {:induction false} FirstNewlineIs(s: seq<Byte>, n: nat)
    requires n <= |s| && NewlineFree(s[..n]) && (n < |s| ==> s[n] == NEWLINE)
    ensures FirstNewline(s) == n
  {
    if n > 0 {
      assert s[0] == s[..n][0];
      assert s[1..][..n - 1] == s[..n][1..];
      FirstNewlineIs(s[1..], n - 1);
    }
  }

  lemma {:induction false} NewlineAt(s: seq<Byte>)
    ensures var n := FirstNewline(s);
      NewlineFree(s[..n]) && (n < |s| ==> s[n] == NEWLINE)
  {
    if s != [] && s[0] != NEWLINE {
      NewlineAt(s[1..]);
      var n := FirstNewline(s[1..]);
      assert s[..n + 1] == [s[0]] + s[1..][..n];
    }
  }

  predicate NewlineFree(s: seq<Byte>) {
    forall i | 0 <= i < |s| :: s[i] != 10
  }

  // `s` is long enough, or has a newline, to be cut.
  predicate Cuts(s: seq<Byte>) {
    FirstNewline(s) < |s| || |s| > MAX_LINE
  }

  function FirstSlice(s: seq<Byte>): Slice
    requires Cuts(s)
  {
    var n := FirstNewline(s);
    if n < |s| && n <= MAX_LINE then Slice(s[..n], true) else Slice(s[..MAX_LINE], false)
  }

  function Width(slice: Slice): nat {
    |slice.bytes| + if slice.ended then 1 else 0
  }

  // What is left of `s` after its first cut.
  function After(s: seq<Byte>): (left: seq<Byte>)
    requires Cuts(s)
    ensures |left| < |s|
  {
    s[Width(FirstSlice(s))..]
  }

  // The simple splitter: the cuts of a whole text, and what remains uncut.
  function Slices(s: seq<Byte>): seq<Slice>
    decreases |s|
  {
    if !Cuts(s) then [] else [FirstSlice(s)] + Slices(After(s))
  }

  function Rest(s: seq<Byte>): seq<Byte>
    decreases |s|
  {
    if !Cuts(s) then s else Rest(After(s))
  }

  // The slices that were looked at for the "server is ready" marker: those cut while a newline was buffered.
  function Checked(s: seq<Byte>): seq<Slice>
    decreases |s|
  {
    if !Cuts(s) then []
    else
      (if FirstNewline(s) < |s| then [FirstSlice(s)] else []) + Checked(After(s))
  }

  function Tail(rest: seq<Byte>): seq<Slice> {
    if rest == [] then [] else [Slice(rest, false)]
  }

  function SplitAll(s: seq<Byte>): seq<Slice> {
    Slices(s) + Tail(Rest(s))
  }

  class LineSplitter {
    var buffer: seq<Byte>
    var lineStart: nat

    predicate Valid()
      reads this
    {
      lineStart <= |buffer| <= 1536 && !Cuts(buffer[lineStart..])
    }

    function Unread(): seq<Byte>
      requires lineStart <= |buffer|
      reads this
    {
      buffer[lineStart..]
    }

    constructor ()
      ensures Valid() && Unread() == []
    {
      buffer, lineStart := [], 0;
    }

    method Feed(data: seq<Byte>) returns (slices: seq<Slice>, checked: seq<Slice>)
      requires Valid()
      modifies this
      ensures Valid()
      ensures slices == Slices(old(Unread()) + data)
      ensures checked == Checked(old(Unread()) + data)
      ensures Unread() == Rest(old(Unread()) + data)
    {
      hide Emitted;
      hide Slices;
      hide Checked;
      hide Rest;
      hide Cuts;
      hide FirstNewline;
      ghost var all := Unread() + data;
      buffer := buffer + data;
      var searchStart := lineStart;
      slices, checked := [], [];
      assert buffer[lineStart..] == all;
      NoneEmitted(all);
      while true
        invariant searchStart == lineStart <= |buffer|
        invariant Emitted(all, slices, checked, buffer[lineStart..])
        decreases |buffer| - lineStart
      {
        CutAt(all, slices, checked, buffer, lineStart);
        var pos := FirstNewline(buffer[searchStart..]);
        if searchStart + pos < |buffer| {
          var newlinePos := searchStart + pos;
          if newlinePos - lineStart <= MAX_LINE {
            var line := Slice(buffer[lineStart..newlinePos], true);
            slices, checked := slices + [line], checked + [line];
            lineStart := newlinePos + 1;
          } else {
            var line := Slice(buffer[lineStart..lineStart + MAX_LINE], false);
            slices, checked := slices + [line], checked + [line];
            lineStart := lineStart + MAX_LINE;
          }
          searchStart := lineStart;
        } else if |buffer| - lineStart > MAX_LINE {
          var line := Slice(buffer[lineStart..lineStart + MAX_LINE], false);
          slices := slices + [line];
          lineStart := lineStart + MAX_LINE;
          searchStart := lineStart;
        } else {
          break;
        }
      }
      if lineStart > 1024 && lineStart > |buffer| / 2 {
        buffer := buffer[lineStart..];
        lineStart := 0;
        assert buffer[lineStart..] == buffer;
      }
    }

    method Finish() returns (slices: seq<Slice>)
      requires Valid()
      ensures slices == Tail(Unread())
    {
      slices := if lineStart < |buffer| then [Slice(buffer[lineStart..], false)] else [];
    }
  }

  lemma Unfold(s: seq<Byte>)
    ensures Slices(s) == (if Cuts(s) then [FirstSlice(s)] + Slices(After(s)) else [])
    ensures Rest(s) == (if Cuts(s) then Rest(After(s)) else s)
    ensures Checked(s)
      == (if Cuts(s) then (if FirstNewline(s) < |s| then [FirstSlice(s)] else []) + Checked(After(s)) else [])
  {
    hide Cuts;
    hide FirstSlice;
    hide After;
    hide FirstNewline;
  }

  // Of the text `all`, these cuts have been made and `unread` is left.
  ghost predicate Emitted(all: seq<Byte>, slices: seq<Slice>, checked: seq<Slice>, unread: seq<Byte>) {
    && Slices(all) == slices + Slices(unread)
    && Checked(all) == checked + Checked(unread)
    && Rest(all) == Rest(unread)
  }

  lemma NoneEmitted(all: seq<Byte>)
    ensures Emitted(all, [], [], all)
  {
  }

  lemma {:induction false} NextCut(all: seq<Byte>, slices: seq<Slice>, checked: seq<Slice>, unread: seq<Byte>)
    requires Emitted(all, slices, checked, unread)
    ensures
      if Cuts(unread) then
        var first := FirstSlice(unread);
        Emitted(all, slices + [first], if FirstNewline(unread) < |unread| then checked + [first] else checked,
                After(unread))
      else slices == Slices(all) && checked == Checked(all) && unread == Rest(all)
  {
    hide Slices;
    hide Rest;
    hide Checked;
    hide Cuts;
    hide FirstSlice;
    hide After;
    Unfold(unread);
  }

  lemma FirstCut(s: seq<Byte>)
    ensures var n := FirstNewline(s);
      if n < |s| && n <= MAX_LINE then
        Cuts(s) && FirstSlice(s) == Slice(s[..n], true) && After(s) == s[n + 1..]
      else if |s| > MAX_LINE then
        Cuts(s) && FirstSlice(s) == Slice(s[..MAX_LINE], false) && After(s) == s[MAX_LINE..]
      else !Cuts(s)
  {
    hide FirstNewline;
  }

  // One cut as the loop makes it.
  lemma CutAt(all: seq<Byte>, slices: seq<Slice>, checked: seq<Slice>, buffer: seq<Byte>, start: nat)
    requires start <= |buffer| && Emitted(all, slices, checked, buffer[start..])
    ensures var n := FirstNewline(buffer[start..]);
      if start + n < |buffer| && n <= MAX_LINE then
        var line := Slice(buffer[start..start + n], true);
        Emitted(all, slices + [line], checked + [line], buffer[start + n + 1..])
      else if start + n < |buffer| then
        var line := Slice(buffer[start..start + MAX_LINE], false);
        Emitted(all, slices + [line], checked + [line], buffer[start + MAX_LINE..])
      else if |buffer| - start > MAX_LINE then
        var line := Slice(buffer[start..start + MAX_LINE], false);
        Emitted(all, slices + [line], checked, buffer[start + MAX_LINE..])
      else
        && !Cuts(buffer[start..])
        && slices == Slices(all) && checked == Checked(all) && buffer[start..] == Rest(all)
  {
    hide *;
    var s := buffer[start..];
    var n := FirstNewline(s);
    FirstCut(s);
    NextCut(all, slices, checked, s);
    if n < |s| && n <= MAX_LINE {
      assert s[..n] == buffer[start..start + n] && s[n + 1..] == buffer[start + n + 1..];
    } else if |s| > MAX_LINE {
      assert s[..MAX_LINE] == buffer[start..start + MAX_LINE] && s[MAX_LINE..] == buffer[start + MAX_LINE..];
    }
  }

  // The whole reader task: every chunk as it arrives, then what is left at the end of the stream.
  method ReadStream(chunks: seq<seq<Byte>>) returns (slices: seq<Slice>, checked: seq<Slice>)
    ensures slices == SplitAll(Flatten(chunks))
    ensures checked == FedChecked(chunks)
  {
    var splitter := new LineSplitter();
    slices, checked := [], [];
    hide Slices;
    hide Rest;
    hide Checked;
    hide Flatten;
    NothingFed();
    for i := 0 to |chunks|
      invariant splitter.Valid() && fresh(splitter)
      invariant slices == Slices(Flatten(chunks[..i])) && splitter.Unread() == Rest(Flatten(chunks[..i]))
      invariant checked == FedChecked(chunks[..i])
    {
      NextFed(chunks, i);
      var more, seen := splitter.Feed(chunks[i]);
      slices, checked := slices + more, checked + seen;
    }
    assert chunks[..|chunks|] == chunks;
    var last := splitter.Finish();
    slices := slices + last;
  }

  // What feeding the chunks one after the other checks for the marker.
  function FedChecked(chunks: seq<seq<Byte>>): seq<Slice> {
    if chunks == [] then []
    else
      var init, last := chunks[..|chunks| - 1], chunks[|chunks| - 1];
      FedChecked(init) + Checked(Rest(Flatten(init)) + last)
  }

  lemma NothingFed()
    ensures Flatten<Byte>([]) == [] && Slices([]) == [] && Rest([]) == [] && FedChecked([]) == []
  {
  }

  lemma NextFed(chunks: seq<seq<Byte>>, i: nat)
    requires i < |chunks|
    ensures var text, fed := Rest(Flatten(chunks[..i])) + chunks[i], Flatten(chunks[..i + 1]);
      && Slices(fed) == Slices(Flatten(chunks[..i])) + Slices(text) && Rest(fed) == Rest(text)
      && FedChecked(chunks[..i + 1]) == FedChecked(chunks[..i]) + Checked(text)
    ensures chunks[..0] == []
  {
    hide Slices;
    hide Rest;
    hide Checked;
    assert chunks[..i + 1][..i] == chunks[..i];
    SlicesAppend(Flatten(chunks[..i]), chunks[i]);
  }

  // More text does not move a cut already made.
  lemma FirstSliceStable(s: seq<Byte>, t: seq<Byte>)
    requires Cuts(s)
    ensures Cuts(s + t) && FirstSlice(s + t) == FirstSlice(s)
  {
    FirstNewlineAppend(s, t);
    var n := FirstNewline(s);
    assert (s + t)[..n] == s[..n];
    if |s| > MAX_LINE {
      assert (s + t)[..MAX_LINE] == s[..MAX_LINE];
    }
  }

  lemma {:induction false} FirstNewlineAppend(s: seq<Byte>, t: seq<Byte>)
    ensures FirstNewline(s + t) == if FirstNewline(s) < |s| then FirstNewline(s) else |s| + FirstNewline(t)
  {
    if s == [] {
      assert s + t == t;
    } else if s[0] != NEWLINE {
      assert (s + t)[1..] == s[1..] + t;
      FirstNewlineAppend(s[1..], t);
    }
  }

  // Cutting a text is cutting its first part and then what that left uncut together with the second.
  lemma {:induction false} SlicesAppend(s: seq<Byte>, t: seq<Byte>)
    ensures Slices(s + t) == Slices(s) + Slices(Rest(s) + t)
    ensures Rest(s + t) == Rest(Rest(s) + t)
    decreases |s|
  {
    if Cuts(s) {
      FirstSliceStable(s, t);
      var w := Width(FirstSlice(s));
      assert (s + t)[w..] == s[w..] + t;
      SlicesAppend(s[w..], t);
    }
  }

  // Main result: however a stream is cut into chunks, the same lines come out.
  lemma {:induction false} ChunkingIrrelevant(chunks: seq<seq<Byte>>, others: seq<seq<Byte>>)
    requires Flatten(chunks) == Flatten(others)
    ensures Streamed(chunks) == Streamed(others) == SplitAll(Flatten(chunks))
  {
    FedIsSlices(chunks);
    FedIsSlices(others);
  }

  // What feeding the chunks one after the other emits, and what it leaves unread.
  function Fed(chunks: seq<seq<Byte>>): (seq<Slice>, seq<Byte>) {
    if chunks == [] then ([], [])
    else
      var (slices, unread) := Fed(chunks[..|chunks| - 1]);
      var text := unread + chunks[|chunks| - 1];
      (slices + Slices(text), Rest(text))
  }

  function Streamed(chunks: seq<seq<Byte>>): seq<Slice> {
    Fed(chunks).0 + Tail(Fed(chunks).1)
  }

  lemma {:induction false} FedIsSlices(chunks: seq<seq<Byte>>)
    ensures Fed(chunks) == (Slices(Flatten(chunks)), Rest(Flatten(chunks)))
  {
    if chunks != [] {
      FedIsSlices(chunks[..|chunks| - 1]);
      SlicesAppend(Flatten(chunks[..|chunks| - 1]), chunks[|chunks| - 1]);
    }
  }

  function Joined(slices: seq<Slice>): seq<Byte> {
    if slices == [] then []
    else slices[0].bytes + (if slices[0].ended then [NEWLINE] else []) + Joined(slices[1..])
  }

  // An independent account of a cut text: no slice holds a newline or more than 512 bytes; one cut short of
  // a newline is full, and what follows it goes on with something else; what is left uncut could not be cut.
  predicate WellCut(slices: seq<Slice>, rest: seq<Byte>) {
    if slices == [] then NewlineFree(rest) && |rest| <= 512
    else
      && NewlineFree(slices[0].bytes) && |slices[0].bytes| <= 512
      && (!slices[0].ended ==>
            && |slices[0].bytes| == 512
            && var following := Joined(slices[1..]) + rest; following != [] && following[0] != NEWLINE)
      && WellCut(slices[1..], rest)
  }

  lemma FirstRejoins(s: seq<Byte>)
    requires Cuts(s)
    ensures var first, left := FirstSlice(s), After(s);
      && s == first.bytes + (if first.ended then [NEWLINE] else []) + left
      && NewlineFree(first.bytes) && |first.bytes| <= MAX_LINE
      && (!first.ended ==> |first.bytes| == MAX_LINE && left != [] && left[0] != NEWLINE)
  {
    NewlineAt(s);
    var n := FirstNewline(s);
    if n < |s| && n <= MAX_LINE {
      assert s == s[..n] + [s[n]] + s[n + 1..];
    } else {
      assert s == s[..MAX_LINE] + s[MAX_LINE..];
      assert s[MAX_LINE] == s[..n][MAX_LINE];
      assert forall i | 0 <= i < MAX_LINE :: s[i] == s[..n][i];
    }
  }

  lemma UncutIsShort(s: seq<Byte>)
    ensures !Cuts(s) ==> NewlineFree(s) && |s| <= MAX_LINE
  {
    NewlineAt(s);
    assert s[..|s|] == s;
  }

  // Lossless and bounded: the slices and what is left give the text back, and are a proper cut of it.
  lemma {:induction false} SlicesRejoin(s: seq<Byte>)
    ensures Joined(Slices(s)) + Rest(s) == s
    ensures WellCut(Slices(s), Rest(s))
    decreases |s|
  {
    hide *;
    Unfold(s);
    if Cuts(s) {
      SlicesRejoin(After(s));
      FirstRejoins(s);
      Prepended(FirstSlice(s), Slices(After(s)), Rest(s));
    } else {
      UncutIsShort(s);
      Uncut(s);
    }
  }

  lemma Uncut(s: seq<Byte>)
    ensures Joined([]) + s == s
    ensures NewlineFree(s) && |s| <= MAX_LINE ==> WellCut([], s)
  {
  }

  lemma Prepended(first: Slice, slices: seq<Slice>, rest: seq<Byte>)
    ensures Joined([first] + slices) + rest
      == first.bytes + (if first.ended then [NEWLINE] else []) + (Joined(slices) + rest)
    ensures
      WellCut([first] + slices, rest) <==>
        && NewlineFree(first.bytes) && |first.bytes| <= MAX_LINE
        && (!first.ended ==>
              && |first.bytes| == MAX_LINE
              && var following := Joined(slices) + rest; following != [] && following[0] != NEWLINE)
        && WellCut(slices, rest)
  {
    assert ([first] + slices)[1..] == slices;
    hide NewlineFree;
  }

  // There is no other: a proper cut of a text is the one the splitter makes.
  lemma {:induction false} CutUnique(slices: seq<Slice>, rest: seq<Byte>)
    requires WellCut(slices, rest)
    ensures Slices(Joined(slices) + rest) == slices && Rest(Joined(slices) + rest) == rest
  {
    var s := Joined(slices) + rest;
    if slices == [] {
      assert s == rest && rest[..|rest|] == rest;
      FirstNewlineIs(rest, |rest|);
    } else {
      var first, following := slices[0], Joined(slices[1..]) + rest;
      assert s == first.bytes + (if first.ended then [NEWLINE] else []) + following;
      var n := |first.bytes|;
      assert s[..n] == first.bytes;
      if first.ended {
        FirstNewlineIs(s, n);
      } else {
        FirstNewlineIs(first.bytes, n);
        assert first.bytes[..n] == first.bytes && s == first.bytes + following;
        FirstNewlineAppend(first.bytes, following);
      }
      assert FirstSlice(s) == first;
      assert s[Width(first)..] == following;
      CutUnique(slices[1..], rest);
    }
  }

  // Main result: the lines of a stream, re-joined, are the stream; none is longer than 512 bytes.
  lemma SplitAllRejoins(s: seq<Byte>)
    ensures Joined(SplitAll(s)) == s
    ensures forall slice | slice in SplitAll(s) :: NewlineFree(slice.bytes) && |slice.bytes| <= 512
  {
    SlicesRejoin(s);
    JoinedTail(Slices(s), Rest(s));
    WellCutAll(Slices(s), Rest(s));
  }

  lemma {:induction false} JoinedTail(slices: seq<Slice>, rest: seq<Byte>)
    ensures Joined(slices + Tail(rest)) == Joined(slices) + rest
  {
    if slices == [] {
      if rest != [] {
        assert Tail(rest)[1..] == [];
      }
    } else {
      assert (slices + Tail(rest))[1..] == slices[1..] + Tail(rest);
      JoinedTail(slices[1..], rest);
    }
  }

  lemma {:induction false} WellCutAll(slices: seq<Slice>, rest: seq<Byte>)
    requires WellCut(slices, rest)
    ensures NewlineFree(rest) && |rest| <= MAX_LINE
    ensures forall slice | slice in slices :: NewlineFree(slice.bytes) && |slice.bytes| <= MAX_LINE
  {
    if slices != [] {
      WellCutAll(slices[1..], rest);
    }
  }

  // Every line that a newline ends is short enough not to be cut by force.
  predicate LinesFit(s: seq<Byte>)
    decreases |s|
  {
    var n := FirstNewline(s);
    n == |s| || (n <= 512 && LinesFit(s[n + 1..]))
  }

  // The slices with a newline after them.
  function Terminated(slices: seq<Slice>): seq<Slice> {
    if slices == [] then []
    else
      Terminated(slices[..|slices| - 1])
      + if slices[|slices| - 1].ended then [slices[|slices| - 1]] else []
  }

  lemma {:induction false} TerminatedAppend(a: seq<Slice>, b: seq<Slice>)
    ensures Terminated(a + b) == Terminated(a) + Terminated(b)
    decreases |b|
  {
    if b == [] {
      assert a + b == a;
    } else {
      assert (a + b)[..|a + b| - 1] == a + b[..|b| - 1];
      TerminatedAppend(a, b[..|b| - 1]);
    }
  }

  lemma NoNewline(s: seq<Byte>)
    requires FirstNewline(s) == |s|
    ensures NewlineFree(s)
    ensures |s| > MAX_LINE ==> FirstNewline(s[MAX_LINE..]) == |s| - MAX_LINE
  {
    NewlineAt(s);
    assert s[..|s|] == s;
    if |s| > MAX_LINE {
      var tail := s[MAX_LINE..];
      assert NewlineFree(tail);
      assert tail[..|tail|] == tail;
      hide FirstNewline;
      hide NewlineFree;
      FirstNewlineIs(tail, |tail|);
    }
  }

  // Where the lines fit, exactly the lines a newline ends are checked.
  lemma {:induction false} FitChecksTerminated(s: seq<Byte>)
    requires LinesFit(s)
    ensures Checked(s) == Terminated(Slices(s))
    decreases |s|
  {
    hide Slices;
    hide Checked;
    Unfold(s);
    if Cuts(s) {
      var first := FirstSlice(s);
      if FirstNewline(s) == |s| {
        NoNewline(s);
      }
      FitChecksTerminated(After(s));
      TerminatedAppend([first], Slices(After(s)));
      assert [first][..0] == [];
      assert Terminated([first]) == if first.ended then [first] else [];
    }
  }

  lemma DropAppend(s: seq<Byte>, t: seq<Byte>, k: nat)
    ensures k <= |s| ==> (s + t)[k..] == s[k..] + t
  {
  }

  // What is left after any part of a text whose lines fit goes on with lines that fit.
  lemma {:induction false} FitRest(s: seq<Byte>, t: seq<Byte>)
    requires LinesFit(s + t)
    ensures LinesFit(Rest(s) + t)
    decreases |s|
  {
    FirstNewlineAppend(s, t);
    if Cuts(s) {
      var n := FirstNewline(s);
      if n < |s| {
        DropAppend(s, t, n + 1);
      } else {
        NoNewline(s + t);
        DropAppend(s, t, MAX_LINE);
      }
      FitRest(After(s), t);
    }
  }

  lemma {:induction false} FitPrefix(s: seq<Byte>, t: seq<Byte>)
    requires LinesFit(s + t)
    ensures LinesFit(s)
    decreases |s|
  {
    FirstNewlineAppend(s, t);
    var n := FirstNewline(s);
    if n < |s| {
      DropAppend(s, t, n + 1);
      FitPrefix(s[n + 1..], t);
    }
  }

  lemma {:induction false} FedFits(chunks: seq<seq<Byte>>)
    requires LinesFit(Flatten(chunks))
    ensures FedChecked(chunks) == Terminated(Slices(Flatten(chunks)))
    decreases |chunks|
  {
    hide Slices;
    hide Checked;
    hide Rest;
    hide LinesFit;
    if chunks == [] {
      NothingFed();
    } else {
      var init, last := chunks[..|chunks| - 1], chunks[|chunks| - 1];
      var fed, text := Flatten(init), Rest(Flatten(init)) + last;
      FitPrefix(fed, last);
      FedFits(init);
      FitRest(fed, last);
      FitChecksTerminated(text);
      SlicesAppend(fed, last);
      TerminatedAppend(Slices(fed), Slices(text));
    }
  }

  // A line that does not fit is cut by force while its newline is buffered, and the cut is checked.
  lemma {:induction false} UnfitChecked(s: seq<Byte>)
    ensures (forall c | c in Checked(s) :: c.ended) <==> LinesFit(s)
    decreases |s|
  {
    hide Checked;
    Unfold(s);
    var n := FirstNewline(s);
    if n < |s| {
      UnfitChecked(After(s));
      assert Checked(s) == [FirstSlice(s)] + Checked(After(s));
      assert FirstSlice(s) in Checked(s);
      if n > MAX_LINE {
        assert !FirstSlice(s).ended;
      } else {
        assert After(s) == s[n + 1..];
        assert forall c :: c in Checked(s) <==> c == FirstSlice(s) || c in Checked(After(s));
      }
    } else {
      NothingChecked(s);
    }
  }

  lemma {:induction false} NothingChecked(s: seq<Byte>)
    requires FirstNewline(s) == |s|
    ensures Checked(s) == []
    decreases |s|
  {
    if |s| > MAX_LINE {
      NoNewline(s);
      NothingChecked(s[MAX_LINE..]);
    }
  }

  function Bytewise(s: seq<Byte>): seq<seq<Byte>> {
    if s == [] then [] else Bytewise(s[..|s| - 1]) + [[s[|s| - 1]]]
  }

  // Fed byte by byte, a cut by force never has its newline buffered.
  lemma {:induction false} BytewiseEnded(s: seq<Byte>)
    ensures Flatten(Bytewise(s)) == s
    ensures forall c | c in FedChecked(Bytewise(s)) :: c.ended
    decreases |s|
  {
    if s != [] {
      var init, b := s[..|s| - 1], s[|s| - 1];
      var chunks := Bytewise(s);
      BytewiseEnded(init);
      assert chunks[..|chunks| - 1] == Bytewise(init) && chunks[|chunks| - 1] == [b];
      assert s == init + [b];
      SlicesRejoin(init);
      WellCutAll(Slices(init), Rest(init));
      OneMoreByte(Rest(init), b);
      hide Checked;
      hide Rest;
      assert FedChecked(chunks) == FedChecked(Bytewise(init)) + Checked(Rest(init) + [b]);
    }
  }

  lemma {:induction false} OneMoreByte(unread: seq<Byte>, b: Byte)
    requires NewlineFree(unread) && |unread| <= MAX_LINE
    ensures forall c | c in Checked(unread + [b]) :: c.ended
  {
    var text := unread + [b];
    assert text[..|unread|] == unread && text[|unread|] == b;
    if b == NEWLINE {
      FirstNewlineIs(text, |unread|);
      assert After(text) == [];
      Unfold(text);
      assert Checked([]) == [];
    } else {
      assert text[..|text|] == text;
      FirstNewlineIs(text, |text|);
      NothingChecked(text);
    }
  }

  // Main result: the "server is ready" check sees the same slices for every chunking of a stream exactly when
  // no line with a newline at its end is longer than 512 bytes.
  lemma StartupExactly(s: seq<Byte>)
    ensures (forall chunks | Flatten(chunks) == s :: FedChecked(chunks) == Checked(s)) <==> LinesFit(s)
  {
    if LinesFit(s) {
      FitChecksTerminated(s);
      forall chunks | Flatten(chunks) == s ensures FedChecked(chunks) == Checked(s) {
        FedFits(chunks);
      }
    } else {
      BytewiseEnded(s);
      UnfitChecked(s);
      assert FedChecked(Bytewise(s)) != Checked(s);
    }
  }

  // Of an unterminated line no cut is checked, while with its newline in the same chunk every cut is.
  lemma {:induction false} StartupSeesChunks(s: seq<Byte>)
    requires NewlineFree(s)
    ensures Checked(s) == []
    ensures Checked(s + [NEWLINE]) == Slices(s + [NEWLINE])
    ensures |s| > 512 <==> |Checked(s) + Checked(Rest(s) + [NEWLINE])| < |Checked(s + [NEWLINE])|
    decreases |s|
  {
    var t := s + [NEWLINE];
    assert s[..|s|] == s == t[..|s|];
    FirstNewlineIs(s, |s|);
    FirstNewlineIs(t, |s|);
    if |s| <= MAX_LINE {
      assert t[|s| + 1..] == [];
      assert Checked([]) == [] && Slices([]) == [];
    } else {
      assert t[MAX_LINE..] == s[MAX_LINE..] + [NEWLINE];
      StartupSeesChunks(s[MAX_LINE..]);
      SlicesAppend(s, [NEWLINE]);
      assert Slices(s) == [FirstSlice(s)] + Slices(s[MAX_LINE..]);
    }
  }
}
