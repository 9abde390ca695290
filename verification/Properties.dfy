/** Rewriting a properties file: values replaced under their keys, missing keys added at the end. */
module Properties {
  import opened Basics

  // A replacement with its value already looked up; None where the lookup finds nothing.
  datatype Replacement = Replacement(key: string, ifValue: Option<string>, value: Option<string>)

  // Unicode's White_Space property, as `trim` uses it.
  predicate Whitespace(c: char) {
    var n := c as int;
    9 <= n <= 13 || n == 32 || n == 0x85 || n == 0xA0 || n == 0x1680 || 0x2000 <= n <= 0x200A
    || n == 0x2028 || n == 0x2029 || n == 0x202F || n == 0x205F || n == 0x3000
  }

  function TrimStart(s: string): string {
    if s != "" && Whitespace(s[0]) then TrimStart(s[1..]) else s
  }

  function TrimEnd(s: string): string {
    if s != "" && Whitespace(s[|s| - 1]) then TrimEnd(s[..|s| - 1]) else s
  }

  function Trim(s: string): string {
    TrimEnd(TrimStart(s))
  }

  // The position of the first `c`, or the length when there is none.
  function Find(s: string, c: char): (n: nat)
    ensures n <= |s|
  {
    if s == "" || s[0] == c then 0 else 1 + Find(s[1..], c)
  }

  predicate EndsInReturn(s: string) {
    s != "" && s[|s| - 1] == '\r'
  }

  function StripReturn(s: string): string {
    if EndsInReturn(s) then s[..|s| - 1] else s
  }

  // The lines of a text: cut at newlines, a carriage return before one dropped, no empty line at the end.
  function Lines(s: string): seq<string>
    decreases |s|
  {
    var n := Find(s, '\n');
    if s == "" then []
    else if n == |s| then [s]
    else [StripReturn(s[..n])] + Lines(s[n + 1..])
  }

  function Join(lines: seq<string>): string {
    if lines == [] then ""
    else if |lines| == 1 then lines[0]
    else lines[0] + "\n" + Join(lines[1..])
  }

  function Text(lines: seq<string>): string {
    Join(lines) + "\n"
  }

  predicate Skipped(line: string) {
    Trim(line) == "" || Trim(line)[0] == '#'
  }

  // A line with a key: neither blank nor a comment, and with an equals sign.
  predicate Pair(line: string) {
    !Skipped(line) && Find(line, '=') < |line|
  }

  function Key(line: string): string
    requires Pair(line)
  {
    Trim(line[..Find(line, '=')])
  }

  function Value(line: string): string
    requires Pair(line)
  {
    line[Find(line, '=') + 1..]
  }

  predicate Applies(r: Replacement, key: string, value: string) {
    r.key == key && (r.ifValue.None? || r.ifValue.value == value) && r.value.Some?
  }

  // The value a key's line gets: that of the first replacement that applies, if any does.
  function NewValue(rs: seq<Replacement>, key: string, value: string): Option<string> {
    if rs == [] then None
    else if Applies(rs[0], key, value) then rs[0].value
    else NewValue(rs[1..], key, value)
  }

  function Entry(key: string, value: string): string {
    key + "=" + value
  }

  function Rewrite(line: string, rs: seq<Replacement>): string {
    if !Pair(line) then line
    else
      var value := NewValue(rs, Key(line), Value(line));
      if value.None? then line else Entry(Key(line), value.value)
  }

  function RewriteAll(lines: seq<string>, rs: seq<Replacement>): seq<string> {
    if lines == [] then [] else RewriteAll(lines[..|lines| - 1], rs) + [Rewrite(lines[|lines| - 1], rs)]
  }

  function Keys(lines: seq<string>): set<string> {
    set line | line in lines && Pair(line) :: Key(line)
  }

  function Added(rs: seq<Replacement>, keys: set<string>): seq<string> {
    if rs == [] then []
    else
      var r := rs[|rs| - 1];
      Added(rs[..|rs| - 1], keys) + if r.key !in keys && r.value.Some? then [Entry(r.key, r.value.value)] else []
  }

  function Processed(lines: seq<string>, rs: seq<Replacement>): seq<string> {
    RewriteAll(lines, rs) + Added(rs, Keys(lines))
  }

  function Process(content: string, rs: seq<Replacement>): string {
    Text(Processed(Lines(content), rs))
  }

  method ProcessPropertiesFile(content: string, rs: seq<Replacement>) returns (text: string)
    ensures text == Process(content, rs)
  {
    var lines := Lines(content);
    var result: seq<string> := [];
    var processedKeys: set<string> := {};
    hide Keys;
    hide RewriteAll;
    hide Trim;
    hide Lines;
    hide Entry;
    NoLines(rs);
    for i := 0 to |lines|
      invariant result == RewriteAll(lines[..i], rs)
      invariant processedKeys == Keys(lines[..i])
    {
      var line := lines[i];
      var updatedLine := line;
      NextLine(lines, rs, i);
      if Trim(line) == "" || Trim(line)[0] == '#' || Find(line, '=') == |line| {
        result := result + [updatedLine];
        continue;
      }
      var key, originalValue := Key(line), Value(line);
      processedKeys := processedKeys + {key};
      for j := 0 to |rs|
        invariant updatedLine == line
        invariant NewValue(rs, key, originalValue) == NewValue(rs[j..], key, originalValue)
      {
        assert rs[j..][1..] == rs[j + 1..];
        if rs[j].key == key {
          if rs[j].ifValue.Some? && originalValue != rs[j].ifValue.value {
            continue;
          }
          if rs[j].value.Some? {
            updatedLine := Entry(key, rs[j].value.value);
            break;
          }
        }
      }
      result := result + [updatedLine];
    }
    assert lines[..|lines|] == lines;
    ghost var rewritten := result;
    for i := 0 to |rs|
      invariant result == rewritten + Added(rs[..i], processedKeys)
    {
      assert rs[..i + 1][..i] == rs[..i];
      if rs[i].key !in processedKeys {
        if rs[i].value.Some? {
          result := result + [Entry(rs[i].key, rs[i].value.value)];
        }
      }
    }
    assert rs[..|rs|] == rs;
    text := Join(result) + "\n";
  }

  lemma NoLines(rs: seq<Replacement>)
    ensures RewriteAll([], rs) == [] && Keys([]) == {}
  {
  }

  lemma NextLine(lines: seq<string>, rs: seq<Replacement>, i: nat)
    requires i < |lines|
    ensures RewriteAll(lines[..i + 1], rs) == RewriteAll(lines[..i], rs) + [Rewrite(lines[i], rs)]
    ensures Keys(lines[..i + 1]) == Keys(lines[..i]) + if Pair(lines[i]) then {Key(lines[i])} else {}
  {
    hide Rewrite;
    hide Pair;
    hide Key;
    assert lines[..i + 1] == lines[..i] + [lines[i]];
    assert lines[..i + 1][..i] == lines[..i];
  }

  // ----- texts and lines -----

  predicate Free(s: string, c: char) {
    forall i | 0 <= i < |s| :: s[i] != c
  }

  predicate Unbroken(s: string) {
    Free(s, '\n')
  }

  predicate AllUnbroken(lines: seq<string>) {
    forall i | 0 <= i < |lines| :: Unbroken(lines[i])
  }

  function StripAll(lines: seq<string>): seq<string> {
    if lines == [] then [] else [StripReturn(lines[0])] + StripAll(lines[1..])
  }

  lemma {:induction false} StripAllAt(lines: seq<string>)
    ensures |StripAll(lines)| == |lines|
    ensures forall i | 0 <= i < |lines| :: StripAll(lines)[i] == StripReturn(lines[i])
  {
    hide StripReturn;
    if lines != [] {
      StripAllAt(lines[1..]);
    }
  }

  lemma {:induction false} FindIs(s: string, c: char, n: nat)
    requires n <= |s| && Free(s[..n], c) && (n < |s| ==> s[n] == c)
    ensures Find(s, c) == n
  {
    if n > 0 {
      assert s[0] == s[..n][0] && s[1..][..n - 1] == s[..n][1..];
      FindIs(s[1..], c, n - 1);
    }
  }

  lemma {:induction false} FindsFirst(s: string, c: char)
    ensures Free(s[..Find(s, c)], c) && (Find(s, c) < |s| ==> s[Find(s, c)] == c)
  {
    if s != "" && s[0] != c {
      FindsFirst(s[1..], c);
      var n := Find(s[1..], c);
      assert s[..n + 1] == [s[0]] + s[1..][..n];
    }
  }

  // Lines have no newline in them.
  lemma {:induction false} LinesUnbroken(s: string)
    ensures AllUnbroken(Lines(s))
    decreases |s|
  {
    var n := Find(s, '\n');
    FindsFirst(s, '\n');
    if n < |s| {
      LinesUnbroken(s[n + 1..]);
    } else {
      assert s[..n] == s;
    }
  }

  // Lines written out and read in again come back, each without a carriage return at its end.
  lemma {:induction false} LinesOfText(lines: seq<string>)
    requires lines != [] && AllUnbroken(lines)
    ensures Lines(Text(lines)) == StripAll(lines)
  {
    var s, n := Text(lines), |lines[0]|;
    hide Join;
    hide StripReturn;
    assert s[..n] == lines[0] && s[n] == '\n';
    FindIs(s, '\n', n);
    if |lines| == 1 {
      assert s[n + 1..] == "";
      assert Lines("") == [] && lines[1..] == [];
    } else {
      assert s[n + 1..] == Text(lines[1..]);
      LinesOfText(lines[1..]);
    }
  }

  // No two lists of lines are written the same.
  lemma {:induction false} TextInjective(a: seq<string>, b: seq<string>)
    requires a != [] && b != [] && AllUnbroken(a) && AllUnbroken(b) && Text(a) == Text(b)
    ensures a == b
    decreases |a|
  {
    FirstOfText(a);
    FirstOfText(b);
    hide Text;
    if |a| > 1 && |b| > 1 {
      TextInjective(a[1..], b[1..]);
    }
  }

  lemma FirstOfText(lines: seq<string>)
    requires lines != [] && AllUnbroken(lines)
    ensures var s := Text(lines);
      && s != "" && Find(s, '\n') == |lines[0]| < |s| && s[..|lines[0]|] == lines[0]
      && s[|lines[0]| + 1..] == if |lines| == 1 then "" else Text(lines[1..])
  {
    var s, n := Text(lines), |lines[0]|;
    hide Join;
    assert s[..n] == lines[0] && s[n] == '\n';
    FindIs(s, '\n', n);
  }

  lemma LinesOfNothing()
    ensures Text([]) == "\n" && Lines("\n") == [""] && Text([""]) == "\n"
  {
    assert Find("\n", '\n') == 0;
    assert Lines("\n"[1..]) == [];
    assert ""  + "\n" == "\n";
  }

  // ----- keys and values -----

  predicate Trimmed(s: string) {
    s != "" ==> !Whitespace(s[0]) && !Whitespace(s[|s| - 1])
  }

  lemma {:induction false} TrimStartIs(s: string)
    ensures |TrimStart(s)| <= |s| && TrimStart(s) == s[|s| - |TrimStart(s)|..]
    ensures TrimStart(s) != "" ==> !Whitespace(TrimStart(s)[0])
    ensures forall i | 0 <= i < |s| - |TrimStart(s)| :: Whitespace(s[i])
  {
    hide Whitespace;
    if s != "" && Whitespace(s[0]) {
      var t := s[1..];
      TrimStartIs(t);
      var k := |t| - |TrimStart(t)|;
      assert t[k..] == s[k + 1..];
      forall i | 0 <= i < k + 1 ensures Whitespace(s[i]) {
        assert i > 0 ==> s[i] == t[i - 1];
      }
    }
  }

  lemma {:induction false} TrimEndIs(s: string)
    ensures |TrimEnd(s)| <= |s| && TrimEnd(s) == s[..|TrimEnd(s)|]
    ensures TrimEnd(s) != "" ==> !Whitespace(TrimEnd(s)[|TrimEnd(s)| - 1])
    ensures forall i | |TrimEnd(s)| <= i < |s| :: Whitespace(s[i])
  {
    hide Whitespace;
    if s != "" && Whitespace(s[|s| - 1]) {
      TrimEndIs(s[..|s| - 1]);
    }
  }

  lemma TrimIs(s: string) returns (i: nat)
    ensures Trimmed(Trim(s))
    ensures i + |Trim(s)| <= |s| && Trim(s) == s[i..i + |Trim(s)|]
    ensures Trim(s) != "" ==> TrimStart(s) == s[i..] && forall j | 0 <= j < i :: Whitespace(s[j])
  {
    hide Whitespace;
    var t := TrimStart(s);
    TrimStartIs(s);
    TrimEndIs(t);
    i := |s| - |t|;
    assert Trim(s) == s[i..i + |Trim(s)|];
  }

  // A key a line can carry.
  predicate GoodKey(key: string) {
    Trimmed(key) && Free(key, '=') && (key != "" ==> key[0] != '#')
  }

  // What is written for a key and a value reads as that key and value.
  lemma EntryReads(key: string, value: string)
    requires GoodKey(key)
    ensures Pair(Entry(key, value)) && Key(Entry(key, value)) == key && Value(Entry(key, value)) == value
  {
    var line := Entry(key, value);
    assert line[..|key|] == key && line[|key|] == '=' && line[|key| + 1..] == value;
    FindIs(line, '=', |key|);
    assert line[0] == if key == "" then '=' else key[0];
    assert TrimStart(line) == line;
    TrimEndIs(line);
    var t := Trim(line);
    assert |t| > |key|;
    assert t[0] == line[0];
  }

  // The key of a line is a key a line can carry.
  lemma KeyGood(line: string)
    requires Pair(line)
    ensures GoodKey(Key(line))
  {
    var n := Find(line, '=');
    FindsFirst(line, '=');
    var i := TrimIs(line[..n]);
    hide Trim;
    hide Find;
    hide Whitespace;
    if Key(line) != "" {
      FirstVisible(line, n);
    }
  }

  lemma {:induction false} TrimStartAt(s: string, i: nat)
    requires i < |s| && !Whitespace(s[i]) && forall j | 0 <= j < i :: Whitespace(s[j])
    ensures TrimStart(s) == s[i..]
  {
    hide Whitespace;
    if i > 0 {
      TrimStartAt(s[1..], i - 1);
    }
  }

  // The first visible character before the equals sign is the first of the whole line.
  lemma FirstVisible(line: string, n: nat)
    requires n <= |line| && Trim(line[..n]) != "" && Trim(line) != ""
    ensures Trim(line[..n])[0] == Trim(line)[0]
  {
    hide Whitespace;
    var before := line[..n];
    var i := TrimIs(before);
    assert Trim(before)[0] == before[i] == line[i];
    forall j | 0 <= j < i ensures Whitespace(line[j]) {
      assert line[j] == before[j];
    }
    TrimStartAt(line, i);
    TrimEndIs(TrimStart(line));
  }

  // ----- the main results -----

  // Keys that can be read back, and values that stay on their line and keep their end.
  predicate WellFormed(rs: seq<Replacement>) {
    forall i | 0 <= i < |rs| ::
      && GoodKey(rs[i].key) && Unbroken(rs[i].key)
      && (rs[i].value.Some? ==> Unbroken(rs[i].value.value) && !EndsInReturn(rs[i].value.value))
  }

  predicate Replaced(line: string, rs: seq<Replacement>) {
    Pair(line) && NewValue(rs, Key(line), Value(line)).Some?
  }

  // No replacement would change a value once it is in place.
  predicate Fixed(rs: seq<Replacement>, key: string, value: string) {
    NewValue(rs, key, value) == None || NewValue(rs, key, value) == Some(value)
  }

  predicate Settled(rs: seq<Replacement>) {
    forall i | 0 <= i < |rs| && rs[i].value.Some? :: Fixed(rs, rs[i].key, rs[i].value.value)
  }

  lemma {:induction false} NewValueFrom(rs: seq<Replacement>, key: string, value: string) returns (i: nat)
    requires NewValue(rs, key, value).Some?
    ensures i < |rs| && Applies(rs[i], key, value) && rs[i].value == NewValue(rs, key, value)
    ensures forall j | 0 <= j < i :: !Applies(rs[j], key, value)
  {
    if Applies(rs[0], key, value) {
      i := 0;
    } else {
      i := NewValueFrom(rs[1..], key, value);
      i := i + 1;
    }
  }

  lemma {:induction false} NoneApplies(rs: seq<Replacement>, key: string, value: string, i: nat)
    requires NewValue(rs, key, value).None? && i < |rs|
    ensures !Applies(rs[i], key, value)
  {
    if i > 0 {
      NoneApplies(rs[1..], key, value, i - 1);
    }
  }

  // A rewritten line keeps its key and stays one line, and ends in a carriage return only if it is unchanged.
  lemma RewriteKeeps(line: string, rs: seq<Replacement>)
    requires Unbroken(line) && WellFormed(rs)
    ensures Unbroken(Rewrite(line, rs))
    ensures Pair(Rewrite(line, rs)) <==> Pair(line)
    ensures Pair(line) ==> Key(Rewrite(line, rs)) == Key(line)
    ensures Settled(rs) ==> Rewrite(Rewrite(line, rs), rs) == Rewrite(line, rs)
    ensures EndsInReturn(Rewrite(line, rs)) <==> EndsInReturn(line) && !Replaced(line, rs)
  {
    if Replaced(line, rs) {
      var i := NewValueFrom(rs, Key(line), Value(line));
      EntryReads(Key(line), rs[i].value.value);
      EntryUnbroken(Key(line), rs[i].value.value);
      hide Pair;
      hide Key;
      hide Value;
    }
  }

  lemma EntryUnbroken(key: string, value: string)
    ensures Unbroken(key) && Unbroken(value) ==> Unbroken(Entry(key, value))
    ensures Unbroken(key) && Unbroken(value) ==> (EndsInReturn(Entry(key, value)) <==> EndsInReturn(value))
  {
  }

  lemma {:induction false} RewriteAllAt(lines: seq<string>, rs: seq<Replacement>)
    ensures |RewriteAll(lines, rs)| == |lines|
    ensures forall i | 0 <= i < |lines| :: RewriteAll(lines, rs)[i] == Rewrite(lines[i], rs)
  {
    hide Rewrite;
    if lines != [] {
      RewriteAllAt(lines[..|lines| - 1], rs);
    }
  }

  // What is added at the end: one line for every value whose key no line had.
  lemma {:induction false} AddedFrom(rs: seq<Replacement>, keys: set<string>, k: nat) returns (i: nat)
    requires k < |Added(rs, keys)|
    ensures i < |rs| && rs[i].key !in keys && rs[i].value.Some?
    ensures Added(rs, keys)[k] == Entry(rs[i].key, rs[i].value.value)
  {
    hide Entry;
    var init := rs[..|rs| - 1];
    if k < |Added(init, keys)| {
      i := AddedFrom(init, keys, k);
    } else {
      i := |rs| - 1;
    }
  }

  lemma {:induction false} AddedHas(rs: seq<Replacement>, keys: set<string>, i: nat) returns (k: nat)
    requires i < |rs| && rs[i].key !in keys && rs[i].value.Some?
    ensures k < |Added(rs, keys)| && Added(rs, keys)[k] == Entry(rs[i].key, rs[i].value.value)
  {
    hide Entry;
    if i < |rs| - 1 {
      k := AddedHas(rs[..|rs| - 1], keys, i);
    } else {
      k := |Added(rs[..|rs| - 1], keys)|;
    }
  }

  // Where each line of the result comes from.
  lemma ProcessedLine(lines: seq<string>, rs: seq<Replacement>, k: nat)
    requires AllUnbroken(lines) && WellFormed(rs) && k < |Processed(lines, rs)|
    ensures var line := Processed(lines, rs)[k];
      && Unbroken(line)
      && (EndsInReturn(line) <==> k < |lines| && EndsInReturn(lines[k]) && !Replaced(lines[k], rs))
      && (k < |lines| ==> line == Rewrite(lines[k], rs))
      && (k >= |lines| ==> exists i | 0 <= i < |rs| && rs[i].value.Some? ::
            rs[i].key !in Keys(lines) && line == Entry(rs[i].key, rs[i].value.value))
      && (Settled(rs) ==> Rewrite(line, rs) == line)
  {
    RewriteAllAt(lines, rs);
    if k < |lines| {
      RewriteKeeps(lines[k], rs);
    } else {
      var i := AddedFrom(rs, Keys(lines), k - |lines|);
      EntryReads(rs[i].key, rs[i].value.value);
      EntryUnbroken(rs[i].key, rs[i].value.value);
      hide Pair;
      hide Key;
      hide Value;
    }
  }

  lemma ProcessedUnbroken(lines: seq<string>, rs: seq<Replacement>)
    requires AllUnbroken(lines) && WellFormed(rs)
    ensures AllUnbroken(Processed(lines, rs))
  {
    forall k | 0 <= k < |Processed(lines, rs)| ensures Unbroken(Processed(lines, rs)[k]) {
      ProcessedLine(lines, rs, k);
    }
  }

  // Every key with a value is in the result.
  lemma ProcessedHas(lines: seq<string>, rs: seq<Replacement>, i: nat) returns (k: nat)
    requires AllUnbroken(lines) && WellFormed(rs) && i < |rs| && rs[i].value.Some?
    ensures k < |Processed(lines, rs)| && Pair(Processed(lines, rs)[k]) && Key(Processed(lines, rs)[k]) == rs[i].key
  {
    RewriteAllAt(lines, rs);
    if rs[i].key in Keys(lines) {
      var line :| line in lines && Pair(line) && Key(line) == rs[i].key;
      k :| 0 <= k < |lines| && lines[k] == line;
      RewriteKeeps(line, rs);
    } else {
      k := AddedHas(rs, Keys(lines), i);
      k := |lines| + k;
      EntryReads(rs[i].key, rs[i].value.value);
    }
  }

  lemma {:induction false} NothingAdded(rs: seq<Replacement>, keys: set<string>)
    requires forall i | 0 <= i < |rs| && rs[i].value.Some? :: rs[i].key in keys
    ensures Added(rs, keys) == []
  {
    if rs != [] {
      NothingAdded(rs[..|rs| - 1], keys);
    }
  }

  // Processing the result again gives the result.
  lemma ProcessedTwice(lines: seq<string>, rs: seq<Replacement>)
    requires AllUnbroken(lines) && WellFormed(rs) && Settled(rs)
    ensures Processed(Processed(lines, rs), rs) == Processed(lines, rs)
  {
    var out := Processed(lines, rs);
    RewriteAllAt(out, rs);
    forall k | 0 <= k < |out| ensures RewriteAll(out, rs)[k] == out[k] {
      ProcessedLine(lines, rs, k);
    }
    assert RewriteAll(out, rs) == out;
    forall i | 0 <= i < |rs| && rs[i].value.Some? ensures rs[i].key in Keys(out) {
      var k := ProcessedHas(lines, rs, i);
      assert out[k] in out;
    }
    NothingAdded(rs, Keys(out));
  }

  // Some line of the text, as it is read, ends in a carriage return and is not replaced.
  predicate ReturnLeft(content: string, rs: seq<Replacement>) {
    exists i | 0 <= i < |Lines(content)| :: EndsInReturn(Lines(content)[i]) && !Replaced(Lines(content)[i], rs)
  }

  // Such a line, and only such a line, is one of the result that ends in a carriage return.
  lemma ReturnWritten(content: string, rs: seq<Replacement>)
    requires WellFormed(rs)
    ensures AllUnbroken(Lines(content))
    ensures var out := Processed(Lines(content), rs);
      ReturnLeft(content, rs) <==> exists k | 0 <= k < |out| :: EndsInReturn(out[k])
  {
    var lines := Lines(content);
    var out := Processed(lines, rs);
    LinesUnbroken(content);
    RewriteAllAt(lines, rs);
    forall k | 0 <= k < |out|
      ensures EndsInReturn(out[k]) <==> k < |lines| && EndsInReturn(lines[k]) && !Replaced(lines[k], rs)
    {
      ProcessedLine(lines, rs, k);
    }
    hide Replaced;
    hide EndsInReturn;
    hide Lines;
    if ReturnLeft(content, rs) {
      var i :| 0 <= i < |lines| && EndsInReturn(lines[i]) && !Replaced(lines[i], rs);
      assert EndsInReturn(out[i]);
    }
  }

  lemma {:induction false} StripNothing(lines: seq<string>)
    requires forall k | 0 <= k < |lines| :: !EndsInReturn(lines[k])
    ensures StripAll(lines) == lines
  {
    StripAllAt(lines);
  }

  // A second pass reads the result without the carriage returns at its lines' ends, and writes none back.
  lemma ReturnLost(out: seq<string>, rs: seq<Replacement>, k: nat)
    requires AllUnbroken(out) && WellFormed(rs) && k < |out| && EndsInReturn(out[k])
    ensures Process(Text(out), rs) != Text(out)
  {
    var read := StripAll(out);
    LinesOfText(out);
    StripAllAt(out);
    LinesUnbroken(Text(out));
    var again := Processed(read, rs);
    ProcessedUnbroken(read, rs);
    RewriteAllAt(read, rs);
    RewriteKeeps(read[k], rs);
    assert again[k] == Rewrite(read[k], rs);
    if Text(again) == Text(out) {
      TextInjective(again, out);
    }
  }

  // For settled replacements, processing is idempotent exactly on the texts that leave no such line.
  lemma IdempotentOn(content: string, rs: seq<Replacement>)
    requires WellFormed(rs) && Settled(rs)
    ensures Process(Process(content, rs), rs) == Process(content, rs) <==> !ReturnLeft(content, rs)
  {
    var lines := Lines(content);
    var out := Processed(lines, rs);
    ReturnWritten(content, rs);
    ProcessedUnbroken(lines, rs);
    if out == [] {
      NothingFromBlank(lines, rs);
    } else {
      LinesOfText(out);
      if ReturnLeft(content, rs) {
        var k :| 0 <= k < |out| && EndsInReturn(out[k]);
        ReturnLost(out, rs, k);
      } else {
        StripNothing(out);
        ProcessedTwice(lines, rs);
      }
    }
  }

  // The smallest such text: one carriage return on a last line without a newline.
  lemma ReturnDropped()
    ensures Process("a\r", []) == "a\r\n" && Process("a\r\n", []) == "a\n"
  {
    var one := "a\r";
    assert one[0] == 'a' && one[1] == '\r';
    FindIs(one, '\n', 2);
    assert Lines(one) == [one];
    Plain([one]);
    LinesOfText([one]);
    assert Text([one]) == "a\r\n";
    assert StripReturn(one) == "a" && [one][1..] == [];
    assert StripAll([one]) == ["a"];
    Plain(["a"]);
    assert Text(["a"]) == "a\n";
  }

  // Without replacements the lines stay as they are.
  lemma Plain(lines: seq<string>)
    ensures Processed(lines, []) == lines
  {
    RewriteAllAt(lines, []);
    assert RewriteAll(lines, []) == lines;
  }

  // The result, read in again, has the processed lines, each without a carriage return at its end: what is
  // said of them below is said of the text.
  lemma ResultLines(content: string, rs: seq<Replacement>)
    requires WellFormed(rs)
    ensures AllUnbroken(Lines(content))
    ensures var out := Processed(Lines(content), rs);
      Lines(Process(content, rs)) == if out == [] then [""] else StripAll(out)
  {
    var lines := Lines(content);
    LinesUnbroken(content);
    ProcessedUnbroken(lines, rs);
    if Processed(lines, rs) == [] {
      LinesOfNothing();
    } else {
      LinesOfText(Processed(lines, rs));
    }
  }

  lemma NothingFromBlank(lines: seq<string>, rs: seq<Replacement>)
    requires Processed(lines, rs) == []
    ensures lines == [] && Process("\n", rs) == "\n" && Text([]) == "\n"
  {
    RewriteAllAt(lines, rs);
    LinesOfNothing();
    RewriteAllAt([""], rs);
    RewriteAllAt([], rs);
    assert !Pair("");
    assert Keys([""]) == {} == Keys([]);
    assert RewriteAll([""], rs) == [""];
  }

  // A text that processing leaves alone has only lines that rewriting leaves alone.
  lemma UnchangedLines(out: seq<string>, rs: seq<Replacement>, k: nat)
    requires AllUnbroken(out) && WellFormed(rs) && Process(Text(out), rs) == Text(out) && k < |out|
    requires forall i | 0 <= i < |out| :: !EndsInReturn(out[i])
    ensures Rewrite(out[k], rs) == out[k]
  {
    StripNothing(out);
    LinesOfText(out);
    RewriteAllAt(out, rs);
    ProcessedUnbroken(out, rs);
    hide WellFormed;
    hide AllUnbroken;
    hide Rewrite;
    hide RewriteAll;
    hide Added;
    hide Lines;
    hide Text;
    TextInjective(Processed(out, rs), out);
    assert Processed(out, rs)[k] == RewriteAll(out, rs)[k];
  }

  // What comes of an empty text: the values put in place, none with a carriage return at its end.
  lemma OnlyAdded(rs: seq<Replacement>)
    requires WellFormed(rs)
    ensures var out := Processed([], rs);
      && AllUnbroken(out) && (forall i | 0 <= i < |out| :: !EndsInReturn(out[i]))
      && Process("", rs) == Text(out) && out == Added(rs, {})
  {
    var out := Processed([], rs);
    assert RewriteAll([], rs) == [] && Keys([]) == {};
    assert Process("", rs) == Text(out);
    ProcessedUnbroken([], rs);
    hide *;
    forall i | 0 <= i < |out| ensures !EndsInReturn(out[i]) {
      NoReturnAdded(rs, i);
    }
  }

  lemma NoReturnAdded(rs: seq<Replacement>, i: nat)
    requires WellFormed(rs) && i < |Processed([], rs)|
    ensures !EndsInReturn(Processed([], rs)[i])
  {
    hide EndsInReturn;
    ProcessedLine([], rs, i);
  }

  lemma OnlyIfSettled(rs: seq<Replacement>)
    requires WellFormed(rs) && Process(Process("", rs), rs) == Process("", rs)
    ensures Settled(rs)
  {
    var out := Processed([], rs);
    OnlyAdded(rs);
    forall i | 0 <= i < |rs| && rs[i].value.Some? ensures Fixed(rs, rs[i].key, rs[i].value.value) {
      assert GoodKey(rs[i].key);
      hide *;
      var k := AddedHas(rs, {}, i);
      EntryKept(out, rs, k, rs[i].key, rs[i].value.value);
    }
  }

  lemma EntryKept(out: seq<string>, rs: seq<Replacement>, k: nat, key: string, value: string)
    requires AllUnbroken(out) && WellFormed(rs) && Process(Text(out), rs) == Text(out)
    requires forall i | 0 <= i < |out| :: !EndsInReturn(out[i])
    requires k < |out| && out[k] == Entry(key, value) && GoodKey(key)
    ensures Fixed(rs, key, value)
  {
    EntryReads(key, value);
    hide *;
    UnchangedLines(out, rs, k);
  }

  // Main result: each value put in place is one the replacements leave alone if and only if processing is
  // idempotent on exactly the texts that leave no line ending in a carriage return.
  lemma IdempotentExactly(rs: seq<Replacement>)
    requires WellFormed(rs)
    ensures Settled(rs) <==>
      forall content :: Process(Process(content, rs), rs) == Process(content, rs) <==> !ReturnLeft(content, rs)
  {
    if Settled(rs) {
      forall content
        ensures Process(Process(content, rs), rs) == Process(content, rs) <==> !ReturnLeft(content, rs)
      {
        IdempotentOn(content, rs);
      }
    } else if Process(Process("", rs), rs) == Process("", rs) <==> !ReturnLeft("", rs) {
      assert Lines("") == [];
      OnlyIfSettled(rs);
    }
  }

  predicate DistinctKeys(rs: seq<Replacement>) {
    forall i, j | 0 <= i < j < |rs| :: rs[i].key != rs[j].key
  }

  // Unconditional replacements of distinct keys are settled.
  lemma UnconditionalSettled(rs: seq<Replacement>)
    requires DistinctKeys(rs) && forall i | 0 <= i < |rs| :: rs[i].ifValue.None?
    ensures Settled(rs)
  {
    forall i | 0 <= i < |rs| && rs[i].value.Some? ensures Fixed(rs, rs[i].key, rs[i].value.value) {
      if NewValue(rs, rs[i].key, rs[i].value.value).Some? {
        var j := NewValueFrom(rs, rs[i].key, rs[i].value.value);
      }
    }
  }

  // Main result: an unconditional replacement's key is in the result, and every line with that key carries
  // its value.
  lemma ReadsBack(lines: seq<string>, rs: seq<Replacement>, i: nat)
    requires AllUnbroken(lines) && WellFormed(rs) && DistinctKeys(rs)
    requires i < |rs| && rs[i].ifValue.None? && rs[i].value.Some?
    ensures var out := Processed(lines, rs);
      && rs[i].key in Keys(out)
      && forall k | 0 <= k < |out| && Pair(out[k]) && Key(out[k]) == rs[i].key :: Value(out[k]) == rs[i].value.value
  {
    var out := Processed(lines, rs);
    var has := ProcessedHas(lines, rs, i);
    assert out[has] in out;
    forall k | 0 <= k < |out| && Pair(out[k]) && Key(out[k]) == rs[i].key
      ensures Value(out[k]) == rs[i].value.value
    {
      ProcessedLine(lines, rs, k);
      if k < |lines| {
        RewriteKeeps(lines[k], rs);
        OnlyApplies(lines[k], rs, i);
      } else {
        var j :| 0 <= j < |rs| && rs[j].value.Some? && out[k] == Entry(rs[j].key, rs[j].value.value);
        EntryReads(rs[j].key, rs[j].value.value);
        assert j == i;
      }
    }
  }

  lemma OnlyApplies(line: string, rs: seq<Replacement>, i: nat)
    requires Unbroken(line) && WellFormed(rs) && DistinctKeys(rs) && Pair(line)
    requires i < |rs| && rs[i].ifValue.None? && rs[i].value.Some? && rs[i].key == Key(line)
    ensures Pair(Rewrite(line, rs)) && Value(Rewrite(line, rs)) == rs[i].value.value
  {
    var key, value := Key(line), Value(line);
    if NewValue(rs, key, value).None? {
      NoneApplies(rs, key, value, i);
    } else {
      var j := NewValueFrom(rs, key, value);
      assert j == i;
      EntryReads(key, rs[i].value.value);
    }
  }

  // ----- which replacement decides -----

  // The replacement is for this key, has a value, and its condition, if any, is the value found.
  predicate Meets(r: Replacement, key: string, value: string) {
    r.key == key && r.value.Some? && (r.ifValue == None || r.ifValue == Some(value))
  }

  // And it is the first that is so.
  predicate Decides(rs: seq<Replacement>, i: int, key: string, value: string) {
    0 <= i < |rs| && Meets(rs[i], key, value) && forall j | 0 <= j < i :: !Meets(rs[j], key, value)
  }

  // Main result: a line with a key gets the value of the first replacement whose key, condition and value are
  // there, and keeps every character if there is none.
  lemma LineDecided(lines: seq<string>, rs: seq<Replacement>, k: nat)
    requires WellFormed(rs) && AllUnbroken(lines) && k < |lines| && Pair(lines[k])
    ensures |Processed(lines, rs)| >= |lines|
    ensures var out, key, value := Processed(lines, rs)[k], Key(lines[k]), Value(lines[k]);
      && Pair(out) && Key(out) == key
      && (forall i | Decides(rs, i, key, value) :: Value(out) == rs[i].value.value)
      && ((forall i | 0 <= i < |rs| :: !Meets(rs[i], key, value)) ==> out == lines[k])
  {
    var line, key, value := lines[k], Key(lines[k]), Value(lines[k]);
    RewriteAllAt(lines, rs);
    RewriteKeeps(line, rs);
    var found := NewValue(rs, key, value);
    hide Pair;
    hide Key;
    hide Value;
    hide RewriteAll;
    if found.None? {
      forall i | 0 <= i < |rs| ensures !Meets(rs[i], key, value) {
        NoneApplies(rs, key, value, i);
      }
    } else {
      var i := NewValueFrom(rs, key, value);
      assert Meets(rs[i], key, value);
      forall j | Decides(rs, j, key, value) ensures j == i {
        assert Applies(rs[j], key, value);
      }
      EntryReads(key, rs[i].value.value);
    }
  }

  // So for distinct keys the condition alone decides.
  lemma ConditionDecides(lines: seq<string>, rs: seq<Replacement>, k: nat, i: nat)
    requires WellFormed(rs) && DistinctKeys(rs) && AllUnbroken(lines)
    requires k < |lines| && Pair(lines[k]) && i < |rs| && rs[i].key == Key(lines[k]) && rs[i].value.Some?
    ensures |Processed(lines, rs)| >= |lines|
    ensures var out := Processed(lines, rs)[k];
      if rs[i].ifValue == None || rs[i].ifValue == Some(Value(lines[k])) then
        Pair(out) && Key(out) == rs[i].key && Value(out) == rs[i].value.value
      else out == lines[k]
  {
    var key, value := Key(lines[k]), Value(lines[k]);
    LineDecided(lines, rs, k);
    hide Pair;
    hide Key;
    hide Value;
    hide Processed;
    if rs[i].ifValue == None || rs[i].ifValue == Some(value) {
      assert Decides(rs, i, key, value);
    }
  }

  predicate AllWhite(s: string) {
    forall i | 0 <= i < |s| :: Whitespace(s[i])
  }

  // The code points that `trim` takes off.
  lemma WhitespaceIs(c: char)
    ensures var white :=
        {0x09, 0x0A, 0x0B, 0x0C, 0x0D, 0x20, 0x85, 0xA0, 0x1680, 0x2000, 0x2001, 0x2002, 0x2003, 0x2004, 0x2005,
         0x2006, 0x2007, 0x2008, 0x2009, 0x200A, 0x2028, 0x2029, 0x202F, 0x205F, 0x3000};
      Whitespace(c) <==> c as int in white
  {
  }

  lemma {:induction false} TrimWhite(s: string)
    requires AllWhite(s)
    ensures TrimStart(s) == "" && Trim(s) == ""
  {
    if s != "" {
      TrimWhite(s[1..]);
    }
  }

  lemma {:induction false} TrimEndAt(s: string, white: string)
    requires AllWhite(white) && (s != "" ==> !Whitespace(s[|s| - 1]))
    ensures TrimEnd(s + white) == s
    decreases |white|
  {
    if white == "" {
      assert s + white == s;
    } else {
      assert (s + white)[..|s + white| - 1] == s + white[..|white| - 1];
      TrimEndAt(s, white[..|white| - 1]);
    }
  }

  lemma KeptAt(lines: seq<string>, rs: seq<Replacement>, k: nat)
    requires k < |lines| && !Pair(lines[k])
    ensures |Processed(lines, rs)| >= |lines| && Processed(lines, rs)[k] == lines[k]
  {
    RewriteAllAt(lines, rs);
  }

  // A line keeps every character if it is blank, if its first visible character is `#`, or if it has no `=`.
  lemma KeptLines(lines: seq<string>, rs: seq<Replacement>, k: nat, white: string, rest: string)
    requires k < |lines| && AllWhite(white)
    requires lines[k] == white || lines[k] == white + "#" + rest || Free(lines[k], '=')
    ensures |Processed(lines, rs)| >= |lines| && Processed(lines, rs)[k] == lines[k]
  {
    var line := lines[k];
    if line == white {
      TrimWhite(line);
    } else if line == white + "#" + rest {
      assert forall i | 0 <= i < |white| :: line[i] == white[i];
      TrimStartAt(line, |white|);
      TrimEndIs(TrimStart(line));
      assert line[|white|..][0] == '#';
    } else {
      assert line[..|line|] == line;
      FindIs(line, '=', |line|);
    }
    KeptAt(lines, rs, k);
  }

  // A key is read without the blanks around it, up to the first `=`; the value is everything after that.
  lemma PaddedReads(before: string, key: string, after: string, value: string)
    requires AllWhite(before) && AllWhite(after) && GoodKey(key) && key != ""
    ensures var line := before + key + after + "=" + value;
      Pair(line) && Key(line) == key && Value(line) == value
  {
    var head := before + key + after;
    var line := head + "=" + value;
    assert line[..|head|] == head && line[|head|] == '=' && line[|head| + 1..] == value;
    assert Free(head, '=');
    FindIs(line, '=', |head|);
    assert forall i | 0 <= i < |before| :: head[i] == before[i] == line[i];
    assert head[|before|] == key[0] == line[|before|];
    TrimStartAt(head, |before|);
    TrimStartAt(line, |before|);
    assert head[|before|..] == key + after;
    TrimEndAt(key, after);
    TrimEndIs(TrimStart(line));
    assert line[|before|..][|head| - |before|] == '=';
  }

  // The lines added at the end stand in the order of their replacements.
  lemma {:induction false} AddedInOrder(rs: seq<Replacement>, keys: set<string>, k: nat, l: nat)
    returns (i: nat, j: nat)
    requires k < l < |Added(rs, keys)|
    ensures i < j < |rs| && rs[i].value.Some? && rs[j].value.Some? && rs[i].key !in keys && rs[j].key !in keys
    ensures Added(rs, keys)[k] == Entry(rs[i].key, rs[i].value.value)
    ensures Added(rs, keys)[l] == Entry(rs[j].key, rs[j].value.value)
  {
    hide Entry;
    var init := rs[..|rs| - 1];
    if l < |Added(init, keys)| {
      i, j := AddedInOrder(init, keys, k, l);
    } else {
      i := AddedFrom(init, keys, k);
      j := |rs| - 1;
    }
  }

  lemma TailInOrder(lines: seq<string>, rs: seq<Replacement>, k: nat, l: nat) returns (i: nat, j: nat)
    requires |lines| <= k < l < |Processed(lines, rs)|
    ensures i < j < |rs| && rs[i].value.Some? && rs[j].value.Some?
    ensures Processed(lines, rs)[k] == Entry(rs[i].key, rs[i].value.value)
    ensures Processed(lines, rs)[l] == Entry(rs[j].key, rs[j].value.value)
  {
    RewriteAllAt(lines, rs);
    i, j := AddedInOrder(rs, Keys(lines), k - |lines|, l - |lines|);
  }

  // A line the replacements have no say in: a blank, a comment, no pair, or another key.
  predicate Untouched(line: string, rs: seq<Replacement>) {
    Pair(line) ==> forall i | 0 <= i < |rs| :: rs[i].key != Key(line)
  }

  function Others(lines: seq<string>, rs: seq<Replacement>): seq<string> {
    if lines == [] then []
    else
      var last := lines[|lines| - 1];
      Others(lines[..|lines| - 1], rs) + if Untouched(last, rs) then [last] else []
  }

  // Main result: all other lines keep their content and their order.
  lemma OthersKept(lines: seq<string>, rs: seq<Replacement>)
    requires AllUnbroken(lines) && WellFormed(rs)
    ensures Others(Processed(lines, rs), rs) == Others(lines, rs)
  {
    OthersRewritten(lines, rs);
    OthersAdded(RewriteAll(lines, rs), rs, rs, Keys(lines));
  }

  lemma {:induction false} OthersRewritten(lines: seq<string>, rs: seq<Replacement>)
    requires AllUnbroken(lines) && WellFormed(rs)
    ensures Others(RewriteAll(lines, rs), rs) == Others(lines, rs)
  {
    if lines != [] {
      var init, last := lines[..|lines| - 1], lines[|lines| - 1];
      OthersRewritten(init, rs);
      RewriteAllAt(init, rs);
      RewriteKeeps(last, rs);
      UntouchedSame(last, rs);
      assert RewriteAll(lines, rs)[..|lines| - 1] == RewriteAll(init, rs);
      hide Untouched;
      hide Rewrite;
    }
  }

  lemma UntouchedSame(line: string, rs: seq<Replacement>)
    requires Unbroken(line) && WellFormed(rs)
    ensures Untouched(Rewrite(line, rs), rs) <==> Untouched(line, rs)
    ensures Untouched(line, rs) ==> Rewrite(line, rs) == line
  {
    RewriteKeeps(line, rs);
    if Pair(line) && NewValue(rs, Key(line), Value(line)).Some? {
      var i := NewValueFrom(rs, Key(line), Value(line));
      hide Pair;
      hide Key;
    }
  }

  lemma {:induction false} OthersAdded(lines: seq<string>, some: seq<Replacement>, rs: seq<Replacement>,
                                       keys: set<string>)
    requires WellFormed(rs) && |some| <= |rs| && some == rs[..|some|]
    ensures Others(lines + Added(some, keys), rs) == Others(lines, rs)
    decreases |some|
  {
    hide *;
    AddedStep(some, keys);
    if some == [] {
      assert lines + [] == lines;
    } else {
      var r, init := some[|some| - 1], some[..|some| - 1];
      OthersAdded(lines, init, rs, keys);
      if r.key !in keys && r.value.Some? {
        var added := Entry(r.key, r.value.value);
        assert lines + (Added(init, keys) + [added]) == (lines + Added(init, keys)) + [added];
        AddedTouched(rs, |some| - 1);
        OthersLast(lines + Added(init, keys), added, rs);
      }
    }
  }

  lemma AddedStep(some: seq<Replacement>, keys: set<string>)
    ensures
      if some == [] then Added(some, keys) == []
      else
        var r, init := some[|some| - 1], some[..|some| - 1];
        Added(some, keys)
        == if r.key !in keys && r.value.Some? then Added(init, keys) + [Entry(r.key, r.value.value)]
           else Added(init, keys)
  {
    hide Entry;
  }

  lemma OthersLast(lines: seq<string>, line: string, rs: seq<Replacement>)
    requires !Untouched(line, rs)
    ensures Others(lines + [line], rs) == Others(lines, rs)
  {
    hide Untouched;
    assert (lines + [line])[..|lines|] == lines;
  }

  lemma AddedTouched(rs: seq<Replacement>, i: nat)
    requires WellFormed(rs) && i < |rs| && rs[i].value.Some?
    ensures !Untouched(Entry(rs[i].key, rs[i].value.value), rs)
  {
    EntryReads(rs[i].key, rs[i].value.value);
  }
}
