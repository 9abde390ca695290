/** Searching a file's content while holding no more than two reads of it. */
module ContentSearch {
  import opened Basics

  const BUFFER: nat := 8192

  predicate At(s: string, query: string, i: int) {
    0 <= i <= |s| - |query| && s[i..i + |query|] == query
  }

  ghost predicate Contains(s: string, query: string) {
    exists i :: At(s, query, i)
  }

  // The library's substring test.
  method Find(s: string, query: string) returns (found: bool)
    ensures found <==> Contains(s, query)
  {
    found := exists i | 0 <= i <= |s| - |query| :: At(s, query, i);
  }

  // What is searched after the read at `i`: the read before it, if any, and itself.
  function Window(chunks: seq<string>, i: nat): string
    requires i < |chunks|
  {
    if i == 0 then chunks[0] else chunks[i - 1] + chunks[i]
  }

  ghost predicate Reported(chunks: seq<string>, query: string) {
    exists i: nat | i < |chunks| :: Contains(Window(chunks, i), query)
  }

  // `chunks` is what the reads return up to the end of the file; the first is there even for an empty file.
  method SearchContent(chunks: seq<string>, query: string) returns (found: bool)
    requires chunks != []
    ensures found <==> Reported(chunks, query)
  {
    var read := 0;
    var lastContent := "";
    while true
      invariant read < |chunks|
      invariant lastContent == if read == 0 then "" else chunks[read - 1]
      invariant forall i: nat | i < read :: !Contains(Window(chunks, i), query)
      decreases |chunks| - read
    {
      var content := chunks[read];
      lastContent := lastContent + content;
      assert lastContent == Window(chunks, read);
      found := Find(lastContent, query);
      if found {
        return;
      }
      lastContent := content;
      read := read + 1;
      if read == |chunks| {
        break;
      }
    }
  }

  lemma {:induction false} WindowInFile(chunks: seq<string>, i: nat) returns (at: nat)
    requires i < |chunks|
    ensures at + |Window(chunks, i)| <= |Flatten(chunks)|
    ensures Flatten(chunks)[at..at + |Window(chunks, i)|] == Window(chunks, i)
    decreases |chunks|
  {
    var init, last := chunks[..|chunks| - 1], chunks[|chunks| - 1];
    if i < |init| {
      at := WindowInFile(init, i);
      assert Window(init, i) == Window(chunks, i);
    } else if i == 0 {
      assert init == [];
      at := 0;
    } else {
      at := |Flatten(init)| - |chunks[i - 1]|;
      assert Flatten(init) == Flatten(init[..i - 1]) + chunks[i - 1];
      assert Flatten(chunks) == Flatten(init[..i - 1]) + (chunks[i - 1] + last);
      assert at == |Flatten(init[..i - 1])|;
    }
  }

  lemma SliceOfSlice(s: string, from: nat, to: nat, i: nat, j: nat)
    requires from <= to <= |s| && i <= j <= to - from
    ensures s[from..to][i..j] == s[from + i..from + j]
  {
    var here, there := s[from..to][i..j], s[from + i..from + j];
    assert |here| == |there|;
    assert forall k | 0 <= k < j - i :: here[k] == s[from..to][i + k] == there[k];
  }

  lemma Inside(s: string, from: nat, to: nat, query: string)
    requires from <= to <= |s| && Contains(s[from..to], query)
    ensures Contains(s, query)
  {
    var i :| At(s[from..to], query, i);
    SliceOfSlice(s, from, to, i, i + |query|);
    assert At(s, query, from + i);
  }

  // Sound for any reads: a file that is reported contains the query.
  lemma ReportedContains(chunks: seq<string>, query: string)
    requires Reported(chunks, query)
    ensures Contains(Flatten(chunks), query)
  {
    hide Window;
    hide Flatten;
    hide Contains;
    var i: nat :| i < |chunks| && Contains(Window(chunks, i), query);
    var at := WindowInFile(chunks, i);
    Inside(Flatten(chunks), at, at + |Window(chunks, i)|, query);
  }

  // ----- reads that fill the buffer until the file ends -----

  function Min(a: int, b: int): int {
    if a <= b then a else b
  }

  // Where the read at `i` begins.
  function Offset(i: nat, size: nat): nat {
    i * size
  }

  lemma Offsets(i: nat, size: nat)
    ensures Offset(0, size) == 0 && Offset(i + 1, size) == Offset(i, size) + size
    ensures Offset(i + 2, size) == Offset(i, size) + 2 * size
    ensures i > 0 ==> Offset(i, size) >= size
  {
    if i > 0 {
      assert i * size == (i - 1) * size + size;
    }
  }

  lemma OffsetsRise(i: nat, j: nat, size: nat)
    requires i <= j
    ensures Offset(i, size) <= Offset(j, size)
  {
    assert j * size == i * size + (j - i) * size;
  }

  // The file from the start of one read to the start of another.
  function Span(content: string, size: nat, i: nat, j: nat): string
    requires i <= j
  {
    OffsetsRise(i, j, size);
    content[Min(Offset(i, size), |content|)..Min(Offset(j, size), |content|)]
  }

  function Count(length: nat, size: nat): (count: nat)
    requires size > 0
    ensures count > 0
  {
    if length <= size then 1 else 1 + Count(length - size, size)
  }

  function FullReads(content: string, size: nat): (chunks: seq<string>)
    requires size > 0
    ensures |chunks| == Count(|content|, size)
    ensures forall i: nat | i < |chunks| :: chunks[i] == Span(content, size, i, i + 1)
  {
    seq(Count(|content|, size), i requires i >= 0 => Span(content, size, i, i + 1))
  }

  lemma {:induction false} CountCovers(length: nat, size: nat)
    requires size > 0
    ensures length <= Offset(Count(length, size), size)
    ensures Count(length, size) == 1 || Offset(Count(length, size) - 1, size) < length
  {
    hide Offset;
    Offsets(0, size);
    if length > size {
      var k := Count(length - size, size);
      CountCovers(length - size, size);
      Offsets(k, size);
      Offsets(k - 1, size);
    }
  }

  lemma SpanJoin(content: string, size: nat, i: nat)
    ensures Span(content, size, i, i + 1) + Span(content, size, i + 1, i + 2) == Span(content, size, i, i + 2)
  {
    hide Offset;
    Offsets(i, size);
    Offsets(i + 1, size);
  }

  lemma {:induction false} FlattenSpans(content: string, size: nat, chunks: seq<string>)
    requires forall i: nat | i < |chunks| :: chunks[i] == Span(content, size, i, i + 1)
    ensures Flatten(chunks) == Span(content, size, 0, |chunks|)
    decreases |chunks|
  {
    hide Offset;
    Offsets(0, size);
    if chunks != [] {
      var k := |chunks| - 1;
      FlattenSpans(content, size, chunks[..k]);
      Offsets(k, size);
      assert chunks[k] == Span(content, size, k, k + 1);
      assert Span(content, size, 0, k) + Span(content, size, k, k + 1) == Span(content, size, 0, k + 1);
    }
  }

  // The reads are the file.
  lemma FullReadsFlatten(content: string, size: nat)
    requires size > 0
    ensures Flatten(FullReads(content, size)) == content
  {
    var chunks := FullReads(content, size);
    hide Offset;
    FlattenSpans(content, size, chunks);
    CountCovers(|content|, size);
    Offsets(0, size);
    assert content[0..|content|] == content;
  }

  // The window after a read is at most two buffers of the file.
  lemma FullWindow(content: string, size: nat, i: nat)
    requires size > 0 && i < Count(|content|, size)
    ensures Window(FullReads(content, size), i) == Span(content, size, if i == 0 then 0 else i - 1, i + 1)
  {
    hide Span;
    if i > 0 {
      SpanJoin(content, size, i - 1);
    }
  }

  lemma WindowIs(content: string, size: nat, i: nat) returns (from: nat, to: nat)
    requires size > 0 && i < Count(|content|, size)
    ensures from == Min(Offset(if i == 0 then 0 else i - 1, size), |content|)
    ensures to == Min(Offset(i + 1, size), |content|) && from <= to
    ensures Window(FullReads(content, size), i) == content[from..to]
  {
    hide Offset;
    hide Window;
    hide FullReads;
    FullWindow(content, size, i);
    var lower := if i == 0 then 0 else i - 1;
    OffsetsRise(lower, i + 1, size);
    from, to := Min(Offset(lower, size), |content|), Min(Offset(i + 1, size), |content|);
  }

  // The read a position falls into.
  lemma {:induction false} ReadOf(p: nat, size: nat) returns (k: nat)
    requires size > 0
    ensures Offset(k, size) <= p < Offset(k, size) + size
  {
    hide Offset;
    Offsets(0, size);
    k := 0;
    if p >= size {
      k := ReadOf(p - size, size);
      Offsets(k, size);
      k := k + 1;
    }
  }

  // The read whose window has an occurrence: the one after that in which it begins, or the last.
  lemma WindowFor(length: nat, size: nat, p: nat, m: nat) returns (i: nat)
    requires size > 0 && m <= size + 1 && p + m <= length
    ensures i < Count(length, size)
    ensures Offset(if i == 0 then 0 else i - 1, size) <= p && p + m <= Min(Offset(i + 1, size), length)
  {
    hide Offset;
    hide Count;
    var n := Count(length, size);
    var k := ReadOf(p, size);
    CountCovers(length, size);
    Offsets(k, size);
    Offsets(0, size);
    if k + 1 < n {
      i := k + 1;
    } else {
      i := n - 1;
      if n > 1 {
        OffsetsRise(n - 2, k, size);
      }
    }
  }

  // An occurrence of at most one byte more than the buffer lies within two neighbouring reads.
  lemma OccurrenceReported(content: string, size: nat, query: string, p: nat)
    requires size > 0 && |query| <= size + 1 && At(content, query, p)
    ensures Reported(FullReads(content, size), query)
  {
    hide Offset;
    hide FullReads;
    hide Window;
    hide Count;
    var i := WindowFor(|content|, size, p, |query|);
    var from, to := WindowIs(content, size, i);
    WithinWindow(content, query, p, from, to);
    hide At;
    assert Contains(Window(FullReads(content, size), i), query);
  }

  lemma WithinWindow(content: string, query: string, p: nat, from: nat, to: nat)
    requires At(content, query, p) && from <= p && p + |query| <= to <= |content|
    ensures Contains(content[from..to], query)
  {
    SliceOfSlice(content, from, to, p - from, p - from + |query|);
    assert At(content[from..to], query, p - from);
  }

  // ----- where it misses -----

  function Run(c: char, n: nat): (s: string)
    ensures |s| == n && forall i | 0 <= i < n :: s[i] == c
  {
    seq(n, _ => c)
  }

  // A run of `m` equal characters that begins in the first read and ends in the third.
  function Straddling(size: nat, n: nat, m: nat): string
    requires size > 0 && size + 2 <= m <= n && 2 * size < n
  {
    var start := Min(size - 1, n - m);
    Run('b', start) + Run('a', m) + Run('b', n - start - m)
  }

  lemma StraddlingIs(size: nat, n: nat, m: nat)
    requires size > 0 && size + 2 <= m <= n && 2 * size < n
    ensures var s, start := Straddling(size, n, m), Min(size - 1, n - m);
      && |s| == n && At(s, Run('a', m), start)
      && (forall i | 0 <= i < n :: s[i] == 'a' <==> start <= i < start + m)
      && start < size && start + m > 2 * size
  {
    var s, start := Straddling(size, n, m), Min(size - 1, n - m);
    assert s[start..start + m] == Run('a', m);
  }

  // A run found in a part of the text that has no other 'a's is the whole run.
  lemma RunFoundWhole(s: string, start: nat, m: nat, from: nat, to: nat, j: int)
    requires m > 0 && from <= to <= |s| && At(s[from..to], Run('a', m), j)
    requires forall i | 0 <= i < |s| :: s[i] == 'a' <==> start <= i < start + m
    ensures from <= start && start + m <= to
  {
    var window := s[from..to];
    assert window[j] == window[j..j + m][0] == 'a';
    assert window[j + m - 1] == window[j..j + m][m - 1] == 'a';
    assert s[from + j] == 'a' && s[from + j + m - 1] == 'a';
  }

  lemma StraddlingMissed(size: nat, n: nat, m: nat, i: nat)
    requires size > 0 && size + 2 <= m <= n && 2 * size < n && i < Count(n, size)
    ensures |Straddling(size, n, m)| == n
    ensures !Contains(Window(FullReads(Straddling(size, n, m), size), i), Run('a', m))
  {
    var s, start := Straddling(size, n, m), Min(size - 1, n - m);
    hide Straddling;
    hide Window;
    hide FullReads;
    hide Count;
    hide Offset;
    StraddlingIs(size, n, m);
    var from, to := WindowIs(s, size, i);
    Offsets(0, size);
    if i > 0 {
      Offsets(i - 1, size);
    }
    var window := Window(FullReads(s, size), i);
    if Contains(window, Run('a', m)) {
      var j :| At(window, Run('a', m), j);
      RunFoundWhole(s, start, m, from, to, j);
    }
  }

  lemma Missed(size: nat, n: nat, m: nat)
    requires size > 0 && size + 2 <= m <= n && 2 * size < n
    ensures var s := Straddling(size, n, m);
      |s| == n && Contains(s, Run('a', m)) && !Reported(FullReads(s, size), Run('a', m))
  {
    StraddlingIs(size, n, m);
    var s := Straddling(size, n, m);
    forall i: nat | i < Count(n, size) ensures !Contains(Window(FullReads(s, size), i), Run('a', m)) {
      StraddlingMissed(size, n, m, i);
    }
  }

  ghost predicate Exact(content: string, size: nat, query: string)
    requires size > 0
  {
    Reported(FullReads(content, size), query) <==> Contains(content, query)
  }

  // Main result: with reads that fill the buffer, files of length `n` are searched exactly for queries of
  // length `m` if and only if the query is at most one byte longer than the buffer, or the file fits in two
  // reads, or it is shorter than the query.
  lemma ExactlyWhen(size: nat, n: nat, m: nat)
    requires size > 0
    ensures (forall content, query | |content| == n && |query| == m :: Exact(content, size, query))
      <==> m <= size + 1 || n <= 2 * size || n < m
  {
    if m <= size + 1 || n <= 2 * size || n < m {
      forall content, query | |content| == n && |query| == m ensures Exact(content, size, query) {
        ExactHere(content, size, query);
      }
    } else {
      Missed(size, n, m);
      assert !Exact(Straddling(size, n, m), size, Run('a', m));
    }
  }

  // With the program's buffer, in numbers.
  lemma BufferExactly(n: nat, m: nat)
    ensures (forall content, query | |content| == n && |query| == m :: Exact(content, BUFFER, query))
      <==> m <= 8193 || n <= 16384 || n < m
  {
    ExactlyWhen(BUFFER, n, m);
  }

  // So queries of up to 8193 characters are found exactly where they are.
  lemma BufferExact(content: string, query: string)
    requires |query| <= 8193
    ensures Reported(FullReads(content, BUFFER), query) <==> Contains(content, query)
  {
    ExactHere(content, BUFFER, query);
  }

  lemma ExactHere(content: string, size: nat, query: string)
    requires size > 0
    requires |query| <= size + 1 || |content| <= 2 * size || |content| < |query|
    ensures Exact(content, size, query)
  {
    var chunks := FullReads(content, size);
    FullReadsFlatten(content, size);
    if Reported(chunks, query) {
      ReportedContains(chunks, query);
    }
    if Contains(content, query) {
      var p :| At(content, query, p);
      if |query| <= size + 1 {
        OccurrenceReported(content, size, query, p);
      } else {
        TwoReads(content, size);
        assert Contains(Window(chunks, 1), query);
      }
    }
  }

  lemma TwoReads(content: string, size: nat)
    requires size + 2 <= |content| <= 2 * size
    ensures |FullReads(content, size)| == 2 && Window(FullReads(content, size), 1) == content
  {
    assert Count(|content| - size, size) == 1;
    hide Window;
    hide Offset;
    var from, to := WindowIs(content, size, 1);
    Offsets(0, size);
    assert content[0..|content|] == content;
  }
}
