/** The CurseForge file fingerprint: two passes over a file, hashing it one byte at a time. */
module Fingerprint {
  import opened Basics

  type Byte = bv8

  const MULTIPLEX: bv32 := 1540483477

  predicate Ignored(b: Byte) {
    b == 9 || b == 10 || b == 13 || b == 32
  }

  function Normalized(s: seq<Byte>): seq<Byte> {
    if s == [] then []
    else Normalized(s[..|s| - 1]) + if Ignored(s[|s| - 1]) then [] else [s[|s| - 1]]
  }

  // ----- the hash of a whole text, word by word -----

  function Lane(s: seq<Byte>, i: nat): bv32 {
    if i < |s| then s[i] as bv32 else 0
  }

  // Up to four bytes as one little-endian word.
  function LittleEndian(s: seq<Byte>): bv32
    requires |s| <= 4
  {
    Lane(s, 0) + 0x100 * Lane(s, 1) + 0x1_0000 * Lane(s, 2) + 0x100_0000 * Lane(s, 3)
  }

  // Wrapping multiplication by the hash's constant.
  function Times(x: bv32): bv32 {
    x * MULTIPLEX
  }

  function Mix(hash: bv32, word: bv32): bv32 {
    var k := Times(word);
    Times(hash) ^ Times(k ^ (k >> 24))
  }

  function MixAll(hash: bv32, s: seq<Byte>): bv32
    decreases |s|
  {
    if |s| < 4 then hash else MixAll(Mix(hash, LittleEndian(s[..4])), s[4..])
  }

  // The program's 32-bit length.
  function Low(length: nat): (low: nat)
    ensures low < 0x1_0000_0000
  {
    length % 0x1_0000_0000
  }

  function SeedOf(low: nat): bv32
    requires low < 0x1_0000_0000
  {
    1 ^ (low as bv32)
  }

  function Seed(length: nat): bv32 {
    SeedOf(Low(length))
  }

  function Finish(hash: bv32): bv32 {
    var mixed := Times(hash ^ (hash >> 13));
    mixed ^ (mixed >> 15)
  }

  // The whole words of a text, and the bytes after them.
  function Whole(s: seq<Byte>): seq<Byte> {
    s[..|s| - |s| % 4]
  }

  function Odd(s: seq<Byte>): (odd: seq<Byte>)
    ensures |odd| == |s| % 4
  {
    s[|s| - |s| % 4..]
  }

  function Hash(s: seq<Byte>): bv32 {
    var hash := MixAll(Seed(|s|), Whole(s));
    Finish(if Odd(s) == [] then hash else Times(hash ^ LittleEndian(Odd(s))))
  }

  // The number of the lowest bit of a lane.
  function Bit(lane: nat): bv32
    requires lane < 4
  {
    if lane == 0 then 0 else if lane == 1 then 8 else if lane == 2 then 16 else 24
  }

  function SetLane(lanes: bv32, b: Byte, bit: bv32): bv32
    requires bit <= 24
  {
    lanes | ((b as bv32) << bit)
  }

  // ----- the program: bytes as they are read -----

  // The result depends on the bytes other than the ignored ones, whatever chunks either pass reads them in.
  method CurseforgeFingerprint(first: seq<seq<Byte>>, second: seq<seq<Byte>>) returns (result: bv32)
    requires Flatten(first) == Flatten(second)
    ensures result == Hash(Normalized(Flatten(first)))
  {
    hide *;
    var normalizedLength := CountNormalized(first);
    ghost var seed := Seed(|Normalized(Flatten(first))|);
    var num2 := Seed(normalizedLength);
    var num3: bv32 := 0;
    var num4: bv32 := 0;
    ghost var seen: seq<Byte> := [];
    Nothing(seed);
    for i := 0 to |second|
      invariant seen == Flatten(second[..i])
      invariant Holds(seed, Normalized(seen), num2, num3, num4)
    {
      var buffer := second[i];
      ghost var before := seen;
      assert buffer[..0] == [] && before + [] == before;
      for j := 0 to |buffer|
        invariant seen == before + buffer[..j]
        invariant Holds(seed, Normalized(seen), num2, num3, num4)
      {
        var b := buffer[j];
        NextByte(seed, seen, b, num2, num3, num4);
        assert before + buffer[..j + 1] == before + buffer[..j] + [b];
        if !Ignored(b) {
          num3 := SetLane(num3, b, num4);
          num4 := num4 + 8;
          if num4 == 32 {
            num2 := Mix(num2, num3);
            num3 := 0;
            num4 := 0;
          }
        }
        seen := seen + [b];
      }
      assert buffer[..|buffer|] == buffer;
      FlattenNext(second, i);
    }
    assert second[..|second|] == second;
    Ending(Normalized(seen), num2, num3, num4);
    if num4 > 0 {
      num2 := Times(num2 ^ num3);
    }
    result := Finish(num2);
  }

  // The first pass. The program counts modulo two to the thirty-second, which is all the seed uses.
  method CountNormalized(chunks: seq<seq<Byte>>) returns (length: nat)
    ensures length == |Normalized(Flatten(chunks))| % 0x1_0000_0000
    ensures Seed(length) == Seed(|Normalized(Flatten(chunks))|)
  {
    hide SeedOf;
    hide Low;
    hide Ignored;
    hide Normalized;
    hide Flatten;
    NothingYet();
    length := 0;
    ghost var seen: seq<Byte> := [];
    for i := 0 to |chunks|
      invariant seen == Flatten(chunks[..i]) && length == |Normalized(seen)| % 0x1_0000_0000
    {
      var buffer := chunks[i];
      ghost var before := seen;
      assert buffer[..0] == [] && before + [] == before;
      for j := 0 to |buffer|
        invariant seen == before + buffer[..j] && length == |Normalized(seen)| % 0x1_0000_0000
      {
        NormalizedNext(seen, buffer[j]);
        assert before + buffer[..j + 1] == before + buffer[..j] + [buffer[j]];
        if !Ignored(buffer[j]) {
          length := (length + 1) % 0x1_0000_0000;
        }
        seen := seen + [buffer[j]];
      }
      assert buffer[..|buffer|] == buffer;
      FlattenNext(chunks, i);
    }
    assert chunks[..|chunks|] == chunks;
    LowOnce(|Normalized(seen)|);
  }

  lemma LowOnce(length: nat)
    ensures Low(length % 0x1_0000_0000) == Low(length)
  {
  }

  lemma NothingYet()
    ensures Flatten<Byte>([]) == [] && Normalized([]) == [] && LittleEndian([]) == 0
  {
  }

  lemma FlattenNext(chunks: seq<seq<Byte>>, i: nat)
    requires i < |chunks|
    ensures Flatten(chunks[..i + 1]) == Flatten(chunks[..i]) + chunks[i]
    ensures chunks[..0] == [] && Flatten<Byte>([]) == []
  {
    assert chunks[..i + 1][..i] == chunks[..i];
  }

  lemma NormalizedNext(s: seq<Byte>, b: Byte)
    ensures Normalized(s + [b]) == if Ignored(b) then Normalized(s) else Normalized(s) + [b]
  {
    assert (s + [b])[..|s|] == s;
  }

  // What the three variables hold between bytes: the hash of the whole words so far, the bytes after them in
  // the low lanes, and the number of the next lane's bit.
  ghost predicate Holds(seed: bv32, s: seq<Byte>, num2: bv32, num3: bv32, num4: bv32) {
    num2 == MixAll(seed, Whole(s)) && num3 == LittleEndian(Odd(s)) && num4 == Bit(|s| % 4)
  }

  lemma Nothing(seed: bv32)
    ensures Holds(seed, Normalized([]), seed, 0, 0) && Flatten<Byte>([]) == []
  {
  }

  // Bytes fill the lanes from the bottom: what is pending stays below the next lane, so setting that lane's
  // bits adds the byte in its place.
  lemma NextLane(s: seq<Byte>, b: Byte, num4: bv32)
    requires |s| <= 3 && num4 == Bit(|s|)
    ensures LittleEndian(s) < (1 as bv32) << num4
    ensures SetLane(LittleEndian(s), b, num4) == LittleEndian(s + [b])
  {
    hide LittleEndian;
    hide SetLane;
    if s == [] {
      assert s + [b] == [b];
      LowLanes(0, b);
    } else if |s| == 1 {
      assert s == [s[0]] && s + [b] == [s[0], b];
      LowLanes(s[0], b);
    } else if |s| == 2 {
      assert s == [s[0], s[1]] && s + [b] == [s[0], s[1], b];
      ThirdLane(s[0], s[1], b);
    } else {
      assert s == [s[0], s[1], s[2]] && s + [b] == [s[0], s[1], s[2], b];
      FourthLane(s[0], s[1], s[2], b);
    }
  }

  // A byte set in each of the four lanes.
  lemma LowLanes(x: Byte, b: Byte)
    ensures LittleEndian([]) < (1 as bv32) << Bit(0) && SetLane(LittleEndian([]), b, Bit(0)) == LittleEndian([b])
    ensures LittleEndian([x]) < (1 as bv32) << Bit(1)
    ensures SetLane(LittleEndian([x]), b, Bit(1)) == LittleEndian([x, b])
  {
  }

  lemma ThirdLane(x: Byte, y: Byte, b: Byte)
    ensures LittleEndian([x, y]) < (1 as bv32) << Bit(2)
    ensures SetLane(LittleEndian([x, y]), b, Bit(2)) == LittleEndian([x, y, b])
  {
  }

  lemma FourthLane(x: Byte, y: Byte, z: Byte, b: Byte)
    ensures LittleEndian([x, y, z]) < (1 as bv32) << Bit(3)
    ensures SetLane(LittleEndian([x, y, z]), b, Bit(3)) == LittleEndian([x, y, z, b])
  {
  }

  // A fourth byte completes a word, which the hash then takes in.
  lemma {:induction false} MixAllAppend(hash: bv32, s: seq<Byte>, word: seq<Byte>)
    requires |s| % 4 == 0 && |word| == 4
    ensures MixAll(hash, s + word) == Mix(MixAll(hash, s), LittleEndian(word))
    decreases |s|
  {
    hide Mix;
    hide LittleEndian;
    if s == [] {
      assert s + word == word && word[..4] == word;
    } else {
      assert (s + word)[..4] == s[..4] && (s + word)[4..] == s[4..] + word;
      MixAllAppend(Mix(hash, LittleEndian(s[..4])), s[4..], word);
    }
  }

  lemma WholeAndOdd(s: seq<Byte>, b: Byte)
    ensures |s| % 4 < 3 ==> Whole(s + [b]) == Whole(s) && Odd(s + [b]) == Odd(s) + [b]
    ensures |s| % 4 == 3 ==> Whole(s + [b]) == Whole(s) + (Odd(s) + [b]) && Odd(s + [b]) == []
    ensures |Whole(s)| % 4 == 0
  {
    var t, k := s + [b], |s| % 4;
    assert t[..|s| - k] == s[..|s| - k] && t[|s| - k..] == s[|s| - k..] + [b];
    if k == 3 {
      assert |t| % 4 == 0;
      assert Whole(t) == t == Whole(s) + (Odd(s) + [b]);
    } else {
      assert |t| % 4 == k + 1;
    }
  }

  // One byte of the second pass.
  lemma NextByte(seed: bv32, seen: seq<Byte>, b: Byte, num2: bv32, num3: bv32, num4: bv32)
    requires Holds(seed, Normalized(seen), num2, num3, num4)
    ensures num4 <= 24
    ensures
      if Ignored(b) then Holds(seed, Normalized(seen + [b]), num2, num3, num4)
      else
        var lanes := SetLane(num3, b, num4);
        if num4 + 8 < 32 then Holds(seed, Normalized(seen + [b]), num2, lanes, num4 + 8)
        else Holds(seed, Normalized(seen + [b]), Mix(num2, lanes), 0, 0)
  {
    hide Mix;
    hide MixAll;
    hide Whole;
    hide Normalized;
    hide Ignored;
    hide Times;
    hide LittleEndian;
    hide SetLane;
    var s := Normalized(seen);
    NormalizedNext(seen, b);
    if !Ignored(b) {
      WholeAndOdd(s, b);
      NextLane(Odd(s), b, num4);
      if |s| % 4 == 3 {
        MixAllAppend(seed, Whole(s), Odd(s) + [b]);
      }
      NothingYet();
    }
  }

  lemma Ending(s: seq<Byte>, num2: bv32, num3: bv32, num4: bv32)
    ensures Holds(Seed(|s|), s, num2, num3, num4) ==>
      Hash(s) == Finish(if num4 > 0 then Times(num2 ^ num3) else num2)
  {
    hide MixAll;
    hide Finish;
    hide Times;
    hide LittleEndian;
    hide Whole;
    hide Seed;
  }

  // Known answers: the empty file, one letter, one whole word, and a word and a half with every ignored byte.
  lemma KnownAnswers()
    ensures Hash([]) == 1540447798 && Hash([97]) == 626045324 && Hash([97, 98, 99, 100]) == 3376380438
    ensures Hash(Normalized([97, 32, 98, 9, 99, 10, 100, 13, 101, 102])) == 455443312
  {
    hide *;
    KnownSteps();
    KnownWords();
    KnownParts();
    KnownNormalized();
    HashIs([]);
    HashIs([97]);
    HashIs([97, 98, 99, 100]);
    HashIs([97, 98, 99, 100, 101, 102]);
  }

  lemma KnownParts()
    ensures Whole([]) == [] && Odd([]) == [] && Whole([97]) == [] && Odd([97]) == [97]
    ensures Whole([97, 98, 99, 100]) == [97, 98, 99, 100] && Odd([97, 98, 99, 100]) == []
    ensures Whole([97, 98, 99, 100, 101, 102]) == [97, 98, 99, 100]
    ensures Odd([97, 98, 99, 100, 101, 102]) == [101, 102]
  {
  }

  lemma HashIs(s: seq<Byte>)
    ensures Hash(s)
      == (if Odd(s) == [] then Finish(MixAll(Seed(|s|), Whole(s)))
          else Finish(Times(MixAll(Seed(|s|), Whole(s)) ^ LittleEndian(Odd(s)))))
  {
    hide Finish;
    hide Times;
    hide MixAll;
    hide LittleEndian;
    hide Seed;
    hide Whole;
  }

  // The steps of the hash on those bytes, one number after the other.
  lemma KnownSteps()
    ensures Seed(0) == 1 && Seed(1) == 0 && Seed(4) == 5 && Seed(6) == 7
    ensures Finish(1) == 1540447798
    ensures Times(0 ^ 97) == 3398009205 && Finish(3398009205) == 626045324
    ensures Finish(669791902) == 3376380438
    ensures Times(1850268260 ^ 26213) == 994268565 && Finish(994268565) == 455443312
  {
  }

  lemma KnownWords()
    ensures LittleEndian([97]) == 97 && LittleEndian([101, 102]) == 26213
    ensures MixAll(1, []) == 1 && MixAll(0, []) == 0
    ensures MixAll(5, [97, 98, 99, 100]) == 669791902 && MixAll(7, [97, 98, 99, 100]) == 1850268260
  {
    var word := [97, 98, 99, 100];
    assert word[..4] == word && word[4..] == [];
    hide Mix;
    hide LittleEndian;
  }

  lemma KnownNormalized()
    ensures Normalized([97, 32, 98, 9, 99, 10, 100, 13, 101, 102]) == [97, 98, 99, 100, 101, 102]
  {
    KnownIgnored();
    NothingNormalized();
    hide *;
    Taken([], [], 97, [97]);
    Taken([97], [97], 32, [97, 32]);
    Taken([97, 32], [97], 98, [97, 32, 98]);
    Taken([97, 32, 98], [97, 98], 9, [97, 32, 98, 9]);
    Taken([97, 32, 98, 9], [97, 98], 99, [97, 32, 98, 9, 99]);
    Taken([97, 32, 98, 9, 99], [97, 98, 99], 10, [97, 32, 98, 9, 99, 10]);
    Taken([97, 32, 98, 9, 99, 10], [97, 98, 99], 100, [97, 32, 98, 9, 99, 10, 100]);
    Taken([97, 32, 98, 9, 99, 10, 100], [97, 98, 99, 100], 13, [97, 32, 98, 9, 99, 10, 100, 13]);
    Taken([97, 32, 98, 9, 99, 10, 100, 13], [97, 98, 99, 100], 101, [97, 32, 98, 9, 99, 10, 100, 13, 101]);
    Taken([97, 32, 98, 9, 99, 10, 100, 13, 101], [97, 98, 99, 100, 101], 102,
          [97, 32, 98, 9, 99, 10, 100, 13, 101, 102]);
  }

  lemma NothingNormalized()
    ensures Normalized([]) == []
  {
  }

  lemma Taken(s: seq<Byte>, kept: seq<Byte>, b: Byte, more: seq<Byte>)
    requires Normalized(s) == kept && more == s + [b]
    ensures Normalized(more) == if Ignored(b) then kept else kept + [b]
  {
    NormalizedNext(s, b);
  }

  lemma KnownIgnored()
    ensures Ignored(9) && Ignored(10) && Ignored(13) && Ignored(32)
    ensures !Ignored(97) && !Ignored(98) && !Ignored(99) && !Ignored(100) && !Ignored(101) && !Ignored(102)
  {
  }

  function Occurs(b: Byte, s: seq<Byte>): nat {
    if s == [] then 0 else Occurs(b, s[..|s| - 1]) + if s[|s| - 1] == b then 1 else 0
  }

  // Tabs, line feeds, carriage returns and spaces go, and every other byte stays as often as it was there.
  lemma {:induction false} NormalizedKeeps(s: seq<Byte>, b: Byte)
    ensures Occurs(b, Normalized(s)) == if b == 9 || b == 10 || b == 13 || b == 32 then 0 else Occurs(b, s)
  {
    if s != [] {
      var init, last := s[..|s| - 1], s[|s| - 1];
      NormalizedKeeps(init, b);
      assert s == init + [last];
      NormalizedNext(init, last);
    }
  }

  // Tabs, line ends and spaces make no difference to the fingerprint, wherever they are put.
  lemma {:induction false} IgnoredAnywhere(s: seq<Byte>, b: Byte, t: seq<Byte>)
    requires Ignored(b)
    ensures Normalized(s + [b] + t) == Normalized(s + t)
    decreases |t|
  {
    hide Ignored;
    if t == [] {
      NormalizedNext(s, b);
      assert s + [b] + t == s + [b] && s + t == s;
    } else {
      var init, last := t[..|t| - 1], t[|t| - 1];
      IgnoredAnywhere(s, b, init);
      assert s + [b] + t == (s + [b] + init) + [last] && s + t == (s + init) + [last];
      NormalizedNext(s + [b] + init, last);
      NormalizedNext(s + init, last);
    }
  }
}
