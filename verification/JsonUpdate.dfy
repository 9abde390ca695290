/** Rewriting a JSON document: values put at dotted paths, one replacement after the other. */
module JsonUpdate {
  import opened Basics

  datatype Json =
    | Null
    | Bool(truth: bool)
    | Int(number: int)
    | Float(float: real)
    | Str(text: string)
    | Arr(items: seq<Json>)
    | Obj(fields: map<string, Json>)

  // A path is a match cut at its dots, so it has at least one part.
  type Path = seq<string>

  const I64_MIN: int := -0x8000_0000_0000_0000
  const I64_MAX: int := 0x7FFF_FFFF_FFFF_FFFF

  // How a text reads as a float: a value for the finite ones with a fractional part, none for all others.
  type FloatReader = string -> Option<real>

  function Lower(c: char): char {
    if 'A' <= c <= 'Z' then c - 'A' + 'a' else c
  }

  predicate EqualsIgnoreCase(s: string, t: string) {
    |s| == |t| && forall i | 0 <= i < |s| :: Lower(s[i]) == Lower(t[i])
  }

  predicate AllDigits(s: string) {
    s != [] && forall i | 0 <= i < |s| :: '0' <= s[i] <= '9'
  }

  function Digits(s: string): nat
    requires forall i | 0 <= i < |s| :: '0' <= s[i] <= '9'
  {
    if s == [] then 0 else 10 * Digits(s[..|s| - 1]) + (s[|s| - 1] - '0') as int
  }

  function ParseI64(s: string): Option<int> {
    var signed := s != [] && (s[0] == '-' || s[0] == '+');
    var digits := if signed then s[1..] else s;
    if !AllDigits(digits) then None
    else
      var n := if signed && s[0] == '-' then -(Digits(digits) as int) else Digits(digits);
      if I64_MIN <= n <= I64_MAX then Some(n) else None
  }

  function Coerce(value: string, float: FloatReader): Json {
    if EqualsIgnoreCase(value, "true") then Bool(true)
    else if EqualsIgnoreCase(value, "false") then Bool(false)
    else if ParseI64(value).Some? then Int(ParseI64(value).value)
    else if float(value).Some? then Float(float(value).value)
    else Str(value)
  }

  // What stands under `name`, or an empty object where nothing does.
  function Child(json: Json, name: string): Json {
    if json.Obj? && name in json.fields then json.fields[name] else Obj(map[])
  }

  function Update(json: Json, path: Path, value: string, float: FloatReader): Json
    decreases |path|
  {
    if path == [] then json
    else if |path| == 1 then
      if json.Obj? then Obj(json.fields[path[0] := Coerce(value, float)])
      else Obj(map[path[0] := Str(value)])
    else if json.Obj? then
      Obj(json.fields[path[0] := Update(Child(json, path[0]), path[1..], value, float)])
    else Obj(map[path[0] := Update(Obj(map[]), path[1..], value, float)])
  }

  // The update as the program makes it, one level at a time.
  method UpdateJsonValue(json: Json, path: Path, value: string, float: FloatReader) returns (updated: Json)
    ensures updated == Update(json, path, value, float)
    decreases |path|
  {
    hide Coerce;
    if path == [] {
      return json;
    }
    if |path| == 1 {
      match json {
        case Obj(fields) =>
          updated := Obj(fields[path[0] := Coerce(value, float)]);
        case _ =>
          updated := Obj(map[path[0] := Str(value)]);
      }
      return;
    }
    match json {
      case Obj(fields) =>
        var entry := if path[0] in fields then fields[path[0]] else Obj(map[]);
        entry := UpdateJsonValue(entry, path[1..], value, float);
        updated := Obj(fields[path[0] := entry]);
      case _ =>
        var newValue := UpdateJsonValue(Obj(map[]), path[1..], value, float);
        updated := Obj(map[path[0] := newValue]);
    }
  }

  function Get(json: Json, path: Path): Option<Json>
    decreases |path|
  {
    if path == [] then Some(json)
    else if json.Obj? && path[0] in json.fields then Get(json.fields[path[0]], path[1..])
    else None
  }

  function Parent(path: Path): Path
    requires path != []
  {
    path[..|path| - 1]
  }

  // The document has something other than an object where the last part of `path` would be put.
  predicate Blocked(json: Json, path: Path)
    requires path != []
  {
    Get(json, Parent(path)).Some? && !Get(json, Parent(path)).value.Obj?
  }

  predicate Comparable(p: Path, q: Path) {
    p <= q || q <= p
  }

  lemma ParentTail(path: Path)
    ensures |path| > 1 ==>
      Parent(path) != [] && Parent(path)[0] == path[0] && Parent(path)[1..] == Parent(path[1..])
  {
  }

  // What an update leaves at its own path: the coerced value, or the text as it is where a non-object stood
  // in the way of the last part.
  lemma {:induction false} ReadsBack(json: Json, path: Path, value: string, float: FloatReader)
    requires path != []
    ensures Get(Update(json, path, value, float), path)
      == Some(if Blocked(json, path) then Str(value) else Coerce(value, float))
    decreases |path|
  {
    hide Coerce;
    var after := Update(json, path, value, float);
    if |path| > 1 {
      ParentTail(path);
      var entry := Child(json, path[0]);
      ReadsBack(entry, path[1..], value, float);
      assert after.fields[path[0]] == Update(entry, path[1..], value, float);
    }
  }

  // So the coerced value reads back exactly when nothing is in the way or the value is a text anyway.
  lemma ReadsBackCoerced(json: Json, path: Path, value: string, float: FloatReader)
    requires path != []
    ensures Get(Update(json, path, value, float), path) == Some(Coerce(value, float))
      <==> !Blocked(json, path) || Coerce(value, float) == Str(value)
  {
    ReadsBack(json, path, value, float);
  }

  // A path neither above nor below the updated one reads as before, and stays absent if it was.
  lemma {:induction false} OthersUnchanged(json: Json, path: Path, value: string, float: FloatReader, q: Path)
    requires !Comparable(path, q)
    ensures Get(Update(json, path, value, float), q) == Get(json, q)
    decreases |path|
  {
    hide Coerce;
    if path[0] == q[0] {
      assert !Comparable(path[1..], q[1..]) by {
        assert path == [path[0]] + path[1..] && q == [q[0]] + q[1..];
      }
      var entry := Child(json, path[0]);
      OthersUnchanged(entry, path[1..], value, float, q[1..]);
    }
  }

  // Everything above an updated path is an object.
  lemma {:induction false} ObjectsAbove(json: Json, path: Path, value: string, float: FloatReader, q: Path)
    requires q < path
    ensures Get(Update(json, path, value, float), q).Some? && Get(Update(json, path, value, float), q).value.Obj?
    decreases |path|
  {
    hide Coerce;
    if q != [] {
      var entry := Child(json, path[0]);
      ObjectsAbove(entry, path[1..], value, float, q[1..]);
    }
  }

  // The one case in which the order of two updates shows: a non-object stood where `p` would be put, `q`
  // goes below it too, and `p`'s value is no text. Whichever goes first keeps the raw text.
  predicate Races(json: Json, p: Path, v: string, q: Path, float: FloatReader)
    requires p != []
  {
    Parent(p) < q && Blocked(json, p) && Coerce(v, float) != Str(v)
  }

  lemma RacesTail(json: Json, p: Path, v: string, q: Path, float: FloatReader)
    requires !Comparable(p, q) && p[0] == q[0]
    ensures |p| > 1
    ensures var entry := Child(json, p[0]);
      Races(json, p, v, q, float) <==> Races(entry, p[1..], v, q[1..], float)
  {
    hide Coerce;
    ParentTail(p);
  }

  // Main result for two updates: at paths neither of which is above the other they commute, exactly unless
  // they race for a non-object.
  lemma {:induction false} UpdatesCommute(json: Json, p: Path, v: string, q: Path, w: string, float: FloatReader)
    requires !Comparable(p, q)
    ensures Update(Update(json, p, v, float), q, w, float) == Update(Update(json, q, w, float), p, v, float)
      <==> !Races(json, p, v, q, float) && !Races(json, q, w, p, float)
    decreases |p|
  {
    if p[0] == q[0] {
      CommuteBelow(json, p, v, q, w, float);
    } else {
      CommuteHere(json, p, v, q, w, float);
    }
  }

  lemma {:induction false} CommuteBelow(json: Json, p: Path, v: string, q: Path, w: string, float: FloatReader)
    requires !Comparable(p, q) && p[0] == q[0]
    ensures Update(Update(json, p, v, float), q, w, float) == Update(Update(json, q, w, float), p, v, float)
      <==> !Races(json, p, v, q, float) && !Races(json, q, w, p, float)
    decreases |p|, 0
  {
    var name := p[0];
    var entry := Child(json, name);
    RacesTail(json, p, v, q, float);
    RacesTail(json, q, w, p, float);
    UpdatesCommute(entry, p[1..], v, q[1..], w, float);
    var first, second := Update(json, p, v, float), Update(json, q, w, float);
    hide *;
    DeepUpdate(json, p, v, float);
    DeepUpdate(json, q, w, float);
    DeepUpdate(first, q, w, float);
    DeepUpdate(second, p, v, float);
  }

  function Fields(json: Json): map<string, Json> {
    if json.Obj? then json.fields else map[]
  }

  lemma DeepUpdate(json: Json, p: Path, v: string, float: FloatReader)
    requires |p| > 1
    ensures var after := Update(json, p, v, float);
      && after == Obj(Fields(json)[p[0] := Child(after, p[0])])
      && after.Obj? && Fields(after) == Fields(json)[p[0] := Child(after, p[0])]
      && Child(after, p[0]) == Update(Child(json, p[0]), p[1..], v, float)
  {
  }

  // What one update puts under its first part.
  function Entry(json: Json, p: Path, v: string, float: FloatReader): Json
    requires p != []
  {
    if |p| == 1 then if json.Obj? then Coerce(v, float) else Str(v)
    else Update(Child(json, p[0]), p[1..], v, float)
  }

  lemma EntryIs(json: Json, p: Path, v: string, float: FloatReader)
    ensures p != [] ==> Update(json, p, v, float) == Obj(Fields(json)[p[0] := Entry(json, p, v, float)])
  {
  }

  lemma CommuteHere(json: Json, p: Path, v: string, q: Path, w: string, float: FloatReader)
    requires p != [] && q != [] && p[0] != q[0]
    ensures Update(Update(json, p, v, float), q, w, float) == Update(Update(json, q, w, float), p, v, float)
      <==> !Races(json, p, v, q, float) && !Races(json, q, w, p, float)
  {
    var a, b := p[0], q[0];
    var fields := Fields(json);
    var x, y := Entry(json, p, v, float), Entry(json, q, w, float);
    var one, other := Obj(fields[a := x]), Obj(fields[b := y]);
    var y', x' := Entry(one, q, w, float), Entry(other, p, v, float);
    EntryIs(json, p, v, float);
    EntryIs(json, q, w, float);
    EntryIs(one, q, w, float);
    EntryIs(other, p, v, float);
    hide *;
    assert fields[a := x][b := y'][a] == x && fields[a := x][b := y'][b] == y';
    assert fields[b := y][a := x'][a] == x' && fields[b := y][a := x'][b] == y;
    if x == x' && y == y' {
      assert fields[a := x][b := y'] == fields[b := y][a := x'];
    }
  }

  // ----- what a text coerces to -----

  function Digit(n: nat): char
    requires n < 10
  {
    '0' + n as char
  }

  function Decimal(n: nat): string {
    if n < 10 then [Digit(n)] else Decimal(n / 10) + [Digit(n % 10)]
  }

  function Zeros(n: nat): string {
    if n == 0 then "" else Zeros(n - 1) + "0"
  }

  // A boolean or an integer as it is written.
  function Shown(v: Json): string
    requires v.Bool? || v.Int?
  {
    if v == Bool(true) then "true"
    else if v == Bool(false) then "false"
    else if v.number < 0 then "-" + Decimal(-v.number)
    else Decimal(v.number)
  }

  predicate SameLetter(a: char, b: char) {
    a == b || ('A' <= a <= 'Z' && b == a - 'A' + 'a') || ('A' <= b <= 'Z' && a == b - 'A' + 'a')
  }

  // The two differ in the case of ASCII letters at most.
  predicate SameButCase(s: string, t: string) {
    |s| == |t| && forall i | 0 <= i < |s| :: SameLetter(s[i], t[i])
  }

  // The text is the number's decimal digits, with any zeros before them and a sign that is not wrong.
  predicate SpellsWith(value: string, n: int, zeros: nat) {
    || (n >= 0 && (value == Zeros(zeros) + Decimal(n) || value == "+" + (Zeros(zeros) + Decimal(n))))
    || (n <= 0 && value == "-" + (Zeros(zeros) + Decimal(-n)))
  }

  ghost predicate Spells(value: string, n: int) {
    exists zeros: nat :: SpellsWith(value, n, zeros)
  }

  lemma CaseIgnored(s: string, t: string)
    ensures EqualsIgnoreCase(s, t) <==> SameButCase(s, t)
  {
    forall a, b ensures Lower(a) == Lower(b) <==> SameLetter(a, b) {
    }
  }

  lemma DigitsNext(s: string, c: char)
    requires forall i | 0 <= i < |s| :: '0' <= s[i] <= '9'
    requires '0' <= c <= '9'
    ensures forall i | 0 <= i < |s + [c]| :: '0' <= (s + [c])[i] <= '9'
    ensures Digits(s + [c]) == 10 * Digits(s) + (c - '0') as int
  {
    assert (s + [c])[..|s|] == s;
  }

  lemma DigitIs(n: nat)
    ensures n < 10 ==> '0' <= Digit(n) <= '9' && (Digit(n) - '0') as int == n
  {
  }

  lemma {:induction false} ZerosDigits(zeros: nat)
    ensures forall i | 0 <= i < |Zeros(zeros)| :: '0' <= Zeros(zeros)[i] <= '9'
    ensures Digits(Zeros(zeros)) == 0
  {
    if zeros > 0 {
      ZerosDigits(zeros - 1);
      DigitsNext(Zeros(zeros - 1), '0');
    }
  }

  // Digits written read as the number they were written for.
  lemma {:induction false} DecimalDigits(zeros: nat, n: nat)
    ensures AllDigits(Zeros(zeros) + Decimal(n)) && Digits(Zeros(zeros) + Decimal(n)) == n
  {
    hide Digit;
    if n < 10 {
      ZerosDigits(zeros);
      DigitIs(n);
      DigitsNext(Zeros(zeros), Digit(n));
    } else {
      DecimalDigits(zeros, n / 10);
      DigitIs(n % 10);
      DigitsNext(Zeros(zeros) + Decimal(n / 10), Digit(n % 10));
      assert Zeros(zeros) + Decimal(n) == Zeros(zeros) + Decimal(n / 10) + [Digit(n % 10)];
    }
  }

  // And digits read are the number's own, behind some zeros.
  lemma {:induction false} DigitsWritten(s: string) returns (zeros: nat)
    requires AllDigits(s)
    ensures s == Zeros(zeros) + Decimal(Digits(s))
    decreases |s|
  {
    hide Decimal;
    hide Digits;
    hide Zeros;
    hide Digit;
    var init, c := SplitLast(s);
    var d := (c - '0') as int;
    DigitOf(c);
    if init == [] {
      zeros := 0;
      SingleDigit(c);
    } else {
      zeros := DigitsWritten(init);
      DigitsAppend(init, c);
      if Digits(init) == 0 {
        OneMoreZero(zeros, d);
        zeros := zeros + 1;
      } else {
        DecimalNext(Digits(init), d);
        assert Zeros(zeros) + (Decimal(Digits(init)) + [c]) == Zeros(zeros) + Decimal(Digits(init)) + [c];
      }
    }
  }

  lemma SplitLast(s: string) returns (init: string, c: char)
    requires AllDigits(s)
    ensures s == init + [c] && '0' <= c <= '9' && (init == [] || AllDigits(init))
  {
    init, c := s[..|s| - 1], s[|s| - 1];
  }

  lemma DigitsAppend(s: string, c: char)
    requires AllDigits(s) && '0' <= c <= '9'
    ensures AllDigits(s + [c]) && Digits(s + [c]) == 10 * Digits(s) + (c - '0') as int
  {
    DigitsNext(s, c);
  }

  lemma DigitOf(c: char)
    ensures '0' <= c <= '9' ==> 0 <= (c - '0') as int < 10 && Digit((c - '0') as int) == c
  {
  }

  lemma SingleDigit(c: char)
    requires '0' <= c <= '9'
    ensures [] + [c] == Zeros(0) + Decimal(Digits([] + [c]))
  {
    DigitsNext([], c);
    DigitOf(c);
  }

  lemma OneMoreZero(zeros: nat, d: nat)
    requires d < 10
    ensures Zeros(zeros) + Decimal(0) + [Digit(d)] == Zeros(zeros + 1) + Decimal(10 * 0 + d)
  {
    assert Decimal(0) == "0" && Decimal(d) == [Digit(d)];
  }

  lemma DecimalNext(n: nat, d: nat)
    requires n > 0 && d < 10
    ensures Decimal(10 * n + d) == Decimal(n) + [Digit(d)]
  {
    assert (10 * n + d) / 10 == n && (10 * n + d) % 10 == d;
  }

  function Unsigned(value: string): string {
    if value != "" && (value[0] == '-' || value[0] == '+') then value[1..] else value
  }

  // A sign, if any, is the first character; what is left are digits.
  lemma ParseIs(value: string, n: int)
    ensures ParseI64(value) == Some(n) <==>
      && AllDigits(Unsigned(value)) && value != ""
      && n == (if value[0] == '-' then -(Digits(Unsigned(value)) as int) else Digits(Unsigned(value)))
      && -0x8000_0000_0000_0000 <= n <= 0x7FFF_FFFF_FFFF_FFFF
  {
    hide Digits;
  }

  lemma UnsignedDigits(digits: string)
    requires AllDigits(digits)
    ensures digits != "" && digits[0] != '-' && Unsigned(digits) == digits
    ensures Unsigned("+" + digits) == digits && Unsigned("-" + digits) == digits
  {
    assert ("+" + digits)[1..] == digits && ("-" + digits)[1..] == digits;
  }

  lemma SignBack(value: string)
    requires value != ""
    ensures if value[0] == '-' then value == "-" + Unsigned(value)
            else if value[0] == '+' then value == "+" + Unsigned(value)
            else value == Unsigned(value)
  {
  }

  // The integers a text can be read as.
  lemma ParsesExactly(value: string, n: int)
    ensures ParseI64(value) == Some(n)
      <==> -0x8000_0000_0000_0000 <= n <= 0x7FFF_FFFF_FFFF_FFFF && Spells(value, n)
  {
    ParseIs(value, n);
    hide *;
    if ParseI64(value) == Some(n) {
      SignBack(value);
      var zeros := DigitsWritten(Unsigned(value));
      SpelledWith(value, n, zeros);
    }
    if -0x8000_0000_0000_0000 <= n <= 0x7FFF_FFFF_FFFF_FFFF && Spells(value, n) {
      SpelledParses(value, n);
    }
  }

  lemma SpelledWith(value: string, n: int, zeros: nat)
    requires value != "" && AllDigits(Unsigned(value))
    requires n == (if value[0] == '-' then -(Digits(Unsigned(value)) as int) else Digits(Unsigned(value)))
    requires Unsigned(value) == Zeros(zeros) + Decimal(Digits(Unsigned(value)))
    ensures Spells(value, n)
  {
    SignBack(value);
    hide Unsigned;
    hide Digits;
    hide AllDigits;
    hide Decimal;
    hide Zeros;
    assert SpellsWith(value, n, zeros);
  }

  lemma SpelledParses(value: string, n: int)
    requires Spells(value, n)
    ensures value != "" && AllDigits(Unsigned(value))
    ensures n == (if value[0] == '-' then -(Digits(Unsigned(value)) as int) else Digits(Unsigned(value)))
  {
    hide Unsigned;
    hide Digits;
    hide Decimal;
    hide Zeros;
    var zeros: nat :| SpellsWith(value, n, zeros);
    var size: nat := if n < 0 then -n else n;
    var digits := Zeros(zeros) + Decimal(size);
    DecimalDigits(zeros, size);
    UnsignedDigits(digits);
    assert ("-" + digits)[0] == '-' && ("+" + digits)[0] == '+';
    assert value == digits || value == "+" + digits || value == "-" + digits;
    hide SpellsWith;
  }

  // No spelling of a number is one of a boolean: it ends in a digit.
  lemma NumberIsNoBool(value: string, n: int)
    requires Spells(value, n)
    ensures !SameButCase(value, "true") && !SameButCase(value, "false")
  {
    var zeros: nat :| SpellsWith(value, n, zeros);
    var digits := Zeros(zeros) + Decimal(if n < 0 then -n else n);
    DecimalDigits(zeros, if n < 0 then -n else n);
    hide Decimal;
    hide Zeros;
    hide Digits;
    assert value[|value| - 1] == digits[|digits| - 1];
    EndsInDigit(value);
  }

  lemma EndsInDigit(value: string)
    ensures value != "" && '0' <= value[|value| - 1] <= '9' ==>
      !SameButCase(value, "true") && !SameButCase(value, "false")
  {
    assert "true"[3] == 'e' && "false"[4] == 'e';
  }

  // Main result: what any text coerces to. A boolean comes from its spellings in any case and from nothing
  // else; a 64-bit integer from its decimal spellings and from nothing else; of the rest a float from the texts
  // that read as one, and every other text stays itself.
  lemma CoerceExactly(value: string, float: FloatReader)
    ensures Coerce(value, float) == Bool(true) <==> SameButCase(value, "true")
    ensures Coerce(value, float) == Bool(false) <==> SameButCase(value, "false")
    ensures forall n ::
      Coerce(value, float) == Int(n)
      <==> -0x8000_0000_0000_0000 <= n <= 0x7FFF_FFFF_FFFF_FFFF && Spells(value, n)
    ensures !Coerce(value, float).Bool? && !Coerce(value, float).Int? ==>
      Coerce(value, float) == if float(value).Some? then Float(float(value).value) else Str(value)
  {
    CaseIgnored(value, "true");
    CaseIgnored(value, "false");
    hide SameButCase;
    hide EqualsIgnoreCase;
    if SameButCase(value, "true") && SameButCase(value, "false") {
      NotBoth(value);
    }
    forall n
      ensures Coerce(value, float) == Int(n)
        <==> -0x8000_0000_0000_0000 <= n <= 0x7FFF_FFFF_FFFF_FFFF && Spells(value, n)
    {
      ParsesExactly(value, n);
      if Spells(value, n) {
        NumberIsNoBool(value, n);
      }
      hide Spells;
      hide ParseI64;
    }
  }

  lemma NotBoth(value: string)
    ensures !(SameButCase(value, "true") && SameButCase(value, "false"))
  {
  }

  // Main result: a boolean or a 64-bit integer written out and put anywhere nothing blocks it reads back.
  lemma ShownReadsBack(json: Json, path: Path, v: Json, float: FloatReader)
    requires path != [] && !Blocked(json, path)
    requires v.Bool? || (v.Int? && -0x8000_0000_0000_0000 <= v.number <= 0x7FFF_FFFF_FFFF_FFFF)
    ensures Get(Update(json, path, Shown(v), float), path) == Some(v)
  {
    ReadsBack(json, path, Shown(v), float);
    CoerceExactly(Shown(v), float);
    hide Coerce;
    hide Update;
    hide Get;
    hide Blocked;
    if v.Int? {
      assert Zeros(0) + Decimal(if v.number < 0 then -v.number else v.number)
        == Decimal(if v.number < 0 then -v.number else v.number);
      assert SpellsWith(Shown(v), v.number, 0);
    }
  }

  // A replacement whose value was looked up; one without a value is skipped.
  datatype Replacement = Replacement(path: Path, value: Option<string>)

  function Apply(json: Json, r: Replacement, float: FloatReader): Json {
    if r.value.None? then json else Update(json, r.path, r.value.value, float)
  }

  function Fold(json: Json, rs: seq<Replacement>, float: FloatReader): Json
    decreases |rs|
  {
    if rs == [] then json else Fold(Apply(json, rs[0], float), rs[1..], float)
  }

  method ProcessReplacements(json: Json, rs: seq<Replacement>, float: FloatReader) returns (updated: Json)
    ensures updated == Fold(json, rs, float)
  {
    updated := json;
    for i := 0 to |rs|
      invariant Fold(json, rs, float) == Fold(updated, rs[i..], float)
    {
      assert rs[i..][1..] == rs[i + 1..];
      if rs[i].value.Some? {
        updated := UpdateJsonValue(updated, rs[i].path, rs[i].value.value, float);
      }
    }
  }

  // Every replacement has a path, and no path is above, below or equal to another's.
  predicate Separate(rs: seq<Replacement>) {
    && (forall i | 0 <= i < |rs| :: rs[i].path != [])
    && forall i, j | 0 <= i < j < |rs| :: !Comparable(rs[i].path, rs[j].path)
  }

  // An earlier replacement puts its value below the parent of this one, and so makes the parent an object.
  predicate Cleared(rs: seq<Replacement>, i: nat)
    requires i < |rs| && rs[i].path != []
  {
    exists k | 0 <= k < i :: rs[k].value.Some? && Parent(rs[i].path) < rs[k].path
  }

  // The replacement's value is coerced, if that makes a difference.
  predicate Coerced(json: Json, rs: seq<Replacement>, float: FloatReader, i: nat)
    requires i < |rs| && rs[i].path != [] && rs[i].value.Some?
  {
    !Blocked(json, rs[i].path) || Cleared(rs, i) || Coerce(rs[i].value.value, float) == Str(rs[i].value.value)
  }

  // An update elsewhere puts nothing in the way of a path, and clears the way if it goes below the parent.
  lemma BlockedAfter(json: Json, r: Replacement, float: FloatReader, q: Path)
    requires r.path != [] && q != [] && !Comparable(r.path, q)
    ensures Blocked(Apply(json, r, float), q) <==> Blocked(json, q) && !(r.value.Some? && Parent(q) < r.path)
  {
    if r.value.Some? {
      if Parent(q) < r.path {
        ObjectsAbove(json, r.path, r.value.value, float, Parent(q));
      } else {
        assert !(r.path <= Parent(q));
        OthersUnchanged(json, r.path, r.value.value, float, Parent(q));
      }
    }
  }

  lemma SeparateRest(rs: seq<Replacement>)
    ensures rs != [] && Separate(rs) ==> Separate(rs[1..])
  {
  }

  // Main result for the fold: a path apart from every replacement's reads as it did in the input.
  lemma {:induction false} FoldFrame(json: Json, rs: seq<Replacement>, float: FloatReader, q: Path)
    requires forall i | 0 <= i < |rs| :: !Comparable(rs[i].path, q)
    ensures Get(Fold(json, rs, float), q) == Get(json, q)
    decreases |rs|
  {
    if rs != [] {
      FoldFrame(Apply(json, rs[0], float), rs[1..], float, q);
      if rs[0].value.Some? {
        OthersUnchanged(json, rs[0].path, rs[0].value.value, float, q);
      }
    }
  }

  // What every replacement leaves at its path in the final document.
  lemma {:induction false} FoldReads(json: Json, rs: seq<Replacement>, float: FloatReader, i: nat)
    requires i < |rs| && Separate(rs) && rs[i].value.Some?
    ensures Get(Fold(json, rs, float), rs[i].path)
      == Some(if Blocked(json, rs[i].path) && !Cleared(rs, i) then Str(rs[i].value.value)
              else Coerce(rs[i].value.value, float))
    decreases |rs|
  {
    hide Coerce;
    hide Blocked;
    var after := Apply(json, rs[0], float);
    SeparateRest(rs);
    if i > 0 {
      BlockedAfter(json, rs[0], float, rs[i].path);
      assert rs[1..][i - 1] == rs[i];
      hide Cleared;
      FoldReads(after, rs[1..], float, i - 1);
    } else {
      ReadsBack(json, rs[0].path, rs[0].value.value, float);
      FoldFrame(after, rs[1..], float, rs[0].path);
    }
  }

  // Main result: a replacement's value reads back coerced from the final document exactly when nothing blocks
  // it in the input, or an earlier replacement clears its way, or it is a text anyway.
  lemma FoldReadsBack(json: Json, rs: seq<Replacement>, float: FloatReader, i: nat)
    requires i < |rs| && Separate(rs) && rs[i].value.Some?
    ensures Get(Fold(json, rs, float), rs[i].path) == Some(Coerce(rs[i].value.value, float))
      <==> Coerced(json, rs, float, i)
  {
    FoldReads(json, rs, float, i);
  }

  // A value already in place is put there without effect.
  lemma {:induction false} UpdateInPlace(json: Json, path: Path, value: string, float: FloatReader)
    requires path != [] && Get(json, path) == Some(Coerce(value, float))
    ensures Update(json, path, value, float) == json
    decreases |path|
  {
    hide Coerce;
    var name := path[0];
    assert json.fields[name := json.fields[name]] == json.fields;
    if |path| > 1 {
      UpdateInPlace(json.fields[name], path[1..], value, float);
    }
  }

  // One update made twice is the update, exactly unless its text took the place of a non-object: then the
  // second time coerces it.
  lemma UpdateTwice(json: Json, path: Path, value: string, float: FloatReader)
    requires path != []
    ensures Update(Update(json, path, value, float), path, value, float) == Update(json, path, value, float)
      <==> !Blocked(json, path) || Coerce(value, float) == Str(value)
  {
    var once := Update(json, path, value, float);
    ReadsBack(json, path, value, float);
    assert Parent(path) < path;
    ObjectsAbove(json, path, value, float, Parent(path));
    ReadsBack(once, path, value, float);
    hide Coerce;
    hide Update;
    if Get(once, path) == Some(Coerce(value, float)) {
      UpdateInPlace(once, path, value, float);
    }
  }

  lemma {:induction false} FoldInPlace(json: Json, rs: seq<Replacement>, float: FloatReader)
    requires forall i | 0 <= i < |rs| && rs[i].value.Some? ::
      rs[i].path != [] && Get(json, rs[i].path) == Some(Coerce(rs[i].value.value, float))
    ensures Fold(json, rs, float) == json
    decreases |rs|
  {
    hide Coerce;
    if rs != [] {
      if rs[0].value.Some? {
        UpdateInPlace(json, rs[0].path, rs[0].value.value, float);
      }
      FoldInPlace(json, rs[1..], float);
    }
  }

  lemma ReadIsUnblocked(json: Json, path: Path)
    requires path != [] && Get(json, path).Some?
    ensures !Blocked(json, path)
    decreases |path|
  {
    if |path| > 1 {
      ParentTail(path);
      ReadIsUnblocked(json.fields[path[0]], path[1..]);
    }
  }

  // Main result: the replacements are put into their own result without effect exactly when each value reads
  // back coerced from it; a raw text left by the first pass is coerced by the second.
  lemma FoldTwice(json: Json, rs: seq<Replacement>, float: FloatReader)
    requires Separate(rs)
    ensures Fold(Fold(json, rs, float), rs, float) == Fold(json, rs, float)
      <==> forall i | 0 <= i < |rs| && rs[i].value.Some? :: Coerced(json, rs, float, i)
  {
    hide Coerce;
    var once := Fold(json, rs, float);
    var twice := Fold(once, rs, float);
    forall i | 0 <= i < |rs| && rs[i].value.Some?
      ensures Get(once, rs[i].path) == Some(Coerce(rs[i].value.value, float)) <==> Coerced(json, rs, float, i)
      ensures Get(twice, rs[i].path) == Some(Coerce(rs[i].value.value, float))
    {
      FoldReadsBack(json, rs, float, i);
      FoldReads(json, rs, float, i);
      ReadIsUnblocked(once, rs[i].path);
      FoldReads(once, rs, float, i);
    }
    hide Coerced;
    hide Fold;
    if forall i | 0 <= i < |rs| && rs[i].value.Some? :: Coerced(json, rs, float, i) {
      FoldInPlace(once, rs, float);
    }
  }

  // No two replacements race for a non-object of the document.
  predicate RaceFree(json: Json, rs: seq<Replacement>, float: FloatReader) {
    forall a, b | a in rs && b in rs && a != b && a.value.Some? && b.value.Some? && a.path != [] ::
      !Races(json, a.path, a.value.value, b.path, float)
  }

  lemma ApplyCommutes(json: Json, a: Replacement, b: Replacement, float: FloatReader)
    requires a.path != [] && b.path != [] && !Comparable(a.path, b.path)
    requires a.value.Some? && b.value.Some? ==>
      !Races(json, a.path, a.value.value, b.path, float) && !Races(json, b.path, b.value.value, a.path, float)
    ensures Apply(Apply(json, a, float), b, float) == Apply(Apply(json, b, float), a, float)
  {
    if a.value.Some? && b.value.Some? {
      UpdatesCommute(json, a.path, a.value.value, b.path, b.value.value, float);
    }
  }

  function Without(rs: seq<Replacement>, k: nat): seq<Replacement>
    requires k < |rs|
  {
    rs[..k] + rs[k + 1..]
  }

  // No race comes up among some of the replacements once another one is made.
  lemma RestRaceFree(json: Json, rs: seq<Replacement>, r: Replacement, rest: seq<Replacement>, float: FloatReader)
    requires RaceFree(json, rs, float) && (forall a | a in rest :: a in rs)
    requires r.path != [] && forall a | a in rest :: a.path != [] && !Comparable(r.path, a.path)
    ensures RaceFree(Apply(json, r, float), rest, float)
  {
    hide Coerce;
    forall a, b | a in rest && b in rest && a != b && a.value.Some? && b.value.Some? && a.path != []
      ensures !Races(Apply(json, r, float), a.path, a.value.value, b.path, float)
    {
      BlockedAfter(json, r, float, a.path);
      assert !Races(json, a.path, a.value.value, b.path, float);
      hide Blocked;
    }
  }

  // Any replacement may as well go first.
  lemma {:induction false} MoveToFront(json: Json, rs: seq<Replacement>, k: nat, float: FloatReader)
    requires k < |rs| && Separate(rs) && RaceFree(json, rs, float)
    ensures Fold(json, rs, float) == Fold(Apply(json, rs[k], float), Without(rs, k), float)
    decreases k
  {
    if k == 0 {
      assert Without(rs, 0) == rs[1..];
    } else {
      SeparateRest(rs);
      assert rs[0] in rs && rs[k] in rs && rs[1..][k - 1] == rs[k];
      assert rs[0] != rs[k];
      RestRaceFree(json, rs, rs[0], rs[1..], float);
      ApplyCommutes(json, rs[0], rs[k], float);
      assert Without(rs, k)[0] == rs[0] && Without(rs, k)[1..] == Without(rs[1..], k - 1);
      hide RaceFree;
      hide Separate;
      MoveToFront(Apply(json, rs[0], float), rs[1..], k - 1, float);
    }
  }

  lemma WithoutSeparate(rs: seq<Replacement>, k: nat)
    requires k < |rs| && Separate(rs)
    ensures Separate(Without(rs, k))
    ensures forall a | a in Without(rs, k) :: a in rs && a.path != [] && !Comparable(rs[k].path, a.path)
    ensures multiset([rs[k]] + Without(rs, k)) == multiset(rs)
  {
    var less := Without(rs, k);
    assert forall i | 0 <= i < |less| :: less[i] == rs[if i < k then i else i + 1];
    assert rs == rs[..k] + [rs[k]] + rs[k + 1..];
  }

  // Whether replacements are separate does not depend on their order.
  lemma {:induction false} SeparatePermuted(rs: seq<Replacement>, ss: seq<Replacement>)
    requires Separate(rs) && multiset(rs) == multiset(ss)
    ensures Separate(ss)
    decreases |rs|
  {
    if rs == [] {
      assert |multiset(ss)| == 0;
    } else {
      hide *;
      var k := Find(rs, ss);
      SeparateRest(rs);
      SeparatePermuted(rs[1..], Without(ss, k));
      Apart(rs);
      SameMembers(rs[1..], Without(ss, k));
      SeparateInsert(ss, k);
    }
  }

  lemma SeparateInsert(ss: seq<Replacement>, k: nat)
    requires k < |ss| && Separate(Without(ss, k)) && ss[k].path != []
    requires forall a | a in Without(ss, k) :: !Comparable(ss[k].path, a.path)
    ensures Separate(ss)
  {
    var less := Without(ss, k);
    forall i | 0 <= i < |ss| && i != k ensures ss[i].path != [] && !Comparable(ss[k].path, ss[i].path) {
      assert less[if i < k then i else i - 1] == ss[i] && ss[i] in less;
    }
    forall i, j | 0 <= i < j < |ss| && i != k && j != k ensures !Comparable(ss[i].path, ss[j].path) {
      assert less[if i < k then i else i - 1] == ss[i] && less[if j < k then j else j - 1] == ss[j];
    }
  }

  lemma {:induction false} SameDocument(json: Json, rs: seq<Replacement>, ss: seq<Replacement>, float: FloatReader)
    requires multiset(rs) == multiset(ss) && Separate(rs) && Separate(ss)
    requires RaceFree(json, rs, float) && RaceFree(json, ss, float)
    ensures Fold(json, rs, float) == Fold(json, ss, float)
    decreases |rs|
  {
    if rs == [] {
      assert |multiset(ss)| == 0;
    } else {
      hide *;
      var k := Find(rs, ss);
      MoveToFront(json, ss, k, float);
      WithoutSeparate(ss, k);
      RestRaceFree(json, ss, ss[k], Without(ss, k), float);
      Apart(rs);
      SeparateRest(rs);
      RestRaceFree(json, rs, rs[0], rs[1..], float);
      SameDocument(Apply(json, rs[0], float), rs[1..], Without(ss, k), float);
    }
  }

  lemma Apart(rs: seq<Replacement>)
    requires rs != [] && Separate(rs)
    ensures rs[0].path != []
    ensures forall a | a in rs[1..] :: a in rs && a.path != [] && !Comparable(rs[0].path, a.path)
  {
  }

  // Two that race: whichever goes first, the racing value stays raw if it does, and is coerced if it does not.
  lemma RaceShows(json: Json, rs: seq<Replacement>, a: Replacement, b: Replacement, float: FloatReader)
    returns (raw: seq<Replacement>, coerced: seq<Replacement>)
    requires Separate(rs) && a in rs && b in rs && a != b && a.value.Some? && b.value.Some? && a.path != []
    requires Races(json, a.path, a.value.value, b.path, float)
    ensures multiset(raw) == multiset(rs) == multiset(coerced)
    ensures Fold(json, raw, float) != Fold(json, coerced, float)
  {
    var i :| 0 <= i < |rs| && rs[i] == a;
    var j :| 0 <= j < |rs| && rs[j] == b;
    raw, coerced := [a] + Without(rs, i), [b] + Without(rs, j);
    WithoutSeparate(rs, i);
    WithoutSeparate(rs, j);
    SeparatePermuted(rs, raw);
    SeparatePermuted(rs, coerced);
    assert a in multiset(coerced);
    var k :| 0 <= k < |coerced| && coerced[k] == a;
    assert Cleared(coerced, k) by {
      assert coerced[0] == b && k > 0;
    }
    assert !Cleared(raw, 0);
    hide Cleared;
    hide Separate;
    hide Without;
    FoldReads(json, raw, float, 0);
    FoldReads(json, coerced, float, k);
  }

  // Main result: every order of the replacements gives the same document if and only if no two of them race
  // for a non-object.
  lemma OrderIrrelevant(json: Json, rs: seq<Replacement>, float: FloatReader)
    requires Separate(rs)
    ensures (forall ss | multiset(ss) == multiset(rs) :: Fold(json, ss, float) == Fold(json, rs, float))
      <==> RaceFree(json, rs, float)
  {
    if RaceFree(json, rs, float) {
      forall ss | multiset(ss) == multiset(rs) ensures Fold(json, ss, float) == Fold(json, rs, float) {
        SeparatePermuted(rs, ss);
        SameMembers(rs, ss);
        hide Races;
        SameDocument(json, ss, rs, float);
      }
    } else {
      var a, b :| a in rs && b in rs && a != b && a.value.Some? && b.value.Some? && a.path != []
        && Races(json, a.path, a.value.value, b.path, float);
      var raw, coerced := RaceShows(json, rs, a, b, float);
      assert Fold(json, raw, float) != Fold(json, rs, float) || Fold(json, coerced, float) != Fold(json, rs, float);
    }
  }

  lemma SameMembers(rs: seq<Replacement>, ss: seq<Replacement>)
    requires multiset(rs) == multiset(ss)
    ensures forall a :: a in rs <==> a in ss
  {
    forall a ensures a in rs <==> a in ss {
      assert a in rs <==> a in multiset(rs);
      assert a in ss <==> a in multiset(ss);
    }
  }

  // Where the first replacement of `rs` is in another arrangement of them.
  lemma Find(rs: seq<Replacement>, ss: seq<Replacement>) returns (k: nat)
    requires rs != [] && multiset(rs) == multiset(ss)
    ensures k < |ss| && ss[k] == rs[0] && multiset(rs[1..]) == multiset(Without(ss, k))
  {
    assert rs[0] in multiset(ss);
    k :| 0 <= k < |ss| && ss[k] == rs[0];
    assert rs == [rs[0]] + rs[1..] && ss == ss[..k] + [ss[k]] + ss[k + 1..];
    assert multiset(rs) == multiset(rs[1..]) + multiset{rs[0]};
    assert multiset(ss) == multiset(Without(ss, k)) + multiset{ss[k]};
    CancelOne(multiset(rs[1..]), multiset(Without(ss, k)), rs[0]);
  }

  lemma CancelOne<T>(m: multiset<T>, n: multiset<T>, x: T)
    requires m + multiset{x} == n + multiset{x}
    ensures m == n
  {
    assert m == (m + multiset{x}) - multiset{x};
    assert n == (n + multiset{x}) - multiset{x};
  }
}
