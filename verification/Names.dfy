/** Which characters XML 1.0 allows in a document, and which in its names (names.rs). */
module Names {
  import opened Unicode
  import opened Words
  import opened Wrappers

  /** `str::starts_with` */
  predicate Starts(text: string, token: string) { token <= text }

  predicate Whitespace(c: char) { c == ' ' || c == '\t' || c == '\r' || c == '\n' }

  predicate Blank(s: string) { forall i: nat | i < |s| :: Whitespace(s[i]) }

  /** `trim_start` */
  function TrimStart(s: string): (rest: string)
    ensures |rest| <= |s|
  {
    if s != "" && Whitespace(s[0]) then TrimStart(s[1..]) else s
  }

  /** Production [2] of XML 1.0: the characters a document may contain. */
  predicate IsXmlChar(c: char) {
    var v := c as int;
    v == 9 || v == 10 || v == 13 || 0x20 <= v <= 0xD7FF || 0xE000 <= v <= 0xFFFD || 0x10000 <= v
  }

  // ---------------------------------------------------------------- characters

  /** Lanes that need no closer look: ASCII from space upwards. */
  predicate Ordinary(b: Byte) { 0x20 <= b < 0x80 }

  function SpecialMarks(word: bv64): bv64 {
    (word & HIGH) | ((word - 0x2020_2020_2020_2020) & !word & HIGH)
  }

  predicate OrdinaryLane(b: bv8) { 0x20 <= b < 0x80 }

  lemma OrdinaryOctet(b: Byte)
    ensures OrdinaryLane(b as bv8) <==> Ordinary(b)
  {
    OctetBounds(b);
  }

  /** A borrow can mark a lane above the first special byte, but never one below it. */
  lemma BorrowsMarkUpwards(b0: bv8, b1: bv8, b2: bv8, b3: bv8, b4: bv8, b5: bv8, b6: bv8, b7: bv8)
    ensures
      var s := SpecialMarks(Load(b0, b1, b2, b3, b4, b5, b6, b7));
      && s & HIGH == s
      && (s & 0x80 != 0 <==> !OrdinaryLane(b0))
      && (OrdinaryLane(b0) ==>
           && (s & 0x8000 != 0 <==> !OrdinaryLane(b1))
           && (OrdinaryLane(b1) ==>
                && (s & 0x80_0000 != 0 <==> !OrdinaryLane(b2))
                && (OrdinaryLane(b2) ==>
                     && (s & 0x8000_0000 != 0 <==> !OrdinaryLane(b3))
                     && (OrdinaryLane(b3) ==>
                          && (s & 0x80_0000_0000 != 0 <==> !OrdinaryLane(b4))
                          && (OrdinaryLane(b4) ==>
                               && (s & 0x8000_0000_0000 != 0 <==> !OrdinaryLane(b5))
                               && (OrdinaryLane(b5) ==>
                                    && (s & 0x80_0000_0000_0000 != 0 <==> !OrdinaryLane(b6))
                                    && (OrdinaryLane(b6) ==>
                                         (s & 0x8000_0000_0000_0000 != 0 <==> !OrdinaryLane(b7)))))))))
  {}

  /** The lowest marked byte of the word test is the first special byte of the chunk. */
  lemma FirstSpecial(chunk: seq<Byte>)
    requires |chunk| == 8
    ensures
      var special := SpecialMarks(Word(chunk));
      if special == 0 then forall i: nat | i < 8 :: Ordinary(chunk[i])
      else
        var j := TrailingZeros(special) / 8;
        j < 8 && !Ordinary(chunk[j]) && forall i: nat | i < j :: Ordinary(chunk[i])
  {
    hide SpecialMarks, Word, Marked, TrailingZeros, Ordinary, MarksFirst, TopsOnly;
    var special := SpecialMarks(Word(chunk));
    SpecialLanes(chunk);
    if special == 0 {
      NoneMarked();
      OrdinaryBelow(chunk, special, 8);
    } else {
      var j := LowestMark(special);
      OrdinaryBelow(chunk, special, j);
      MarksAt(chunk, special, j);
    }
  }

  /** A lane behind ordinary ones is marked exactly when it is special. */
  predicate MarksFirst(chunk: seq<Byte>, special: bv64)
    requires |chunk| == 8
  {
    forall k: nat | k < 8 && (forall i: nat | i < k :: Ordinary(chunk[i])) ::
      Marked(special, k) <==> !Ordinary(chunk[k])
  }

  lemma MarksAt(chunk: seq<Byte>, special: bv64, k: nat)
    requires |chunk| == 8 && k < 8 && MarksFirst(chunk, special) && forall i: nat | i < k :: Ordinary(chunk[i])
    ensures Marked(special, k) <==> !Ordinary(chunk[k])
  {
    hide Ordinary, Marked;
  }

  lemma NoneMarked()
    ensures forall i: nat :: !Marked(0, i)
  {}

  lemma SpecialLanes(chunk: seq<Byte>)
    requires |chunk| == 8
    ensures TopsOnly(SpecialMarks(Word(chunk))) && MarksFirst(chunk, SpecialMarks(Word(chunk)))
  {
    hide SpecialMarks, Load, Ordinary, OrdinaryLane;
    forall i: nat | i < 8 ensures OrdinaryLane(chunk[i] as bv8) <==> Ordinary(chunk[i]) {
      OrdinaryOctet(chunk[i]);
    }
    BorrowsMarkUpwards(chunk[0] as bv8, chunk[1] as bv8, chunk[2] as bv8, chunk[3] as bv8,
                       chunk[4] as bv8, chunk[5] as bv8, chunk[6] as bv8, chunk[7] as bv8);
  }

  /** Below the lowest mark every byte is ordinary. */
  lemma {:induction false} OrdinaryBelow(chunk: seq<Byte>, special: bv64, n: nat)
    requires |chunk| == 8 && n <= 8 && MarksFirst(chunk, special) && forall i: nat | i < n :: !Marked(special, i)
    ensures forall i: nat | i < n :: Ordinary(chunk[i])
  {
    hide Ordinary, Marked, MarksFirst;
    if n > 0 {
      OrdinaryBelow(chunk, special, n - 1);
      MarksAt(chunk, special, n - 1);
    }
  }

  predicate AllXml(s: string) { forall i: nat | i < |s| :: IsXmlChar(s[i]) }

  /** Ordinary bytes are whole characters that XML allows. */
  lemma SkipOrdinary(s: string, n: nat)
    requires n <= Len(s) && forall i: nat | i < n :: Ordinary(Utf8(s)[i])
    ensures n <= |s| && Len(s[n..]) == Len(s) - n && AllXml(s[..n])
  {
    AsciiPrefix(s, n);
  }

  /** `offset` is where the first forbidden character of `text` starts. */
  predicate FirstForbidden(text: string, offset: nat) {
    exists k: nat | k < |text| :: Len(text[..k]) == offset && AllXml(text[..k]) && !IsXmlChar(text[k])
  }

  lemma ForbiddenAfter(done: string, rest: string)
    requires AllXml(done) && rest != "" && !IsXmlChar(rest[0])
    ensures FirstForbidden(done + rest, Len(done)) && Len(done + rest) == Len(done) + Len(rest)
  {
    LenConcat(done, rest);
    assert (done + rest)[..|done|] == done;
  }

  lemma Shift(done: string, rest: string, n: nat)
    requires n <= |rest|
    ensures done + rest == (done + rest[..n]) + rest[n..]
  {}

  /** `invalid_xml_char`: where the text first leaves production [2], eight bytes at a time while they are plain. */
  method InvalidXmlChar(text: string) returns (found: Option<nat>)
    ensures found.None? ==> AllXml(text)
    ensures found.Some? ==> FirstForbidden(text, found.value)
  {
    hide Encode, Width, Utf8;
    var rest := text;
    ghost var done := "";
    while Len(rest) >= 8
      invariant text == done + rest && AllXml(done)
      decreases |rest|
    {
      var chunk := Utf8(rest)[..8];
      var skip := FirstSpecialLane(chunk);
      SkipOrdinary(rest, skip);
      Shift(done, rest, skip);
      done, rest := done + rest[..skip], rest[skip..];
      if skip == 8 {
        continue;
      }
      var character := rest[0];
      if !IsXmlChar(character) {
        ForbiddenAfter(done, rest);
        return Some(Len(text) - Len(rest));
      }
      Shift(done, rest, 1);
      done, rest := done + rest[..1], rest[1..];
    }
    while rest != ""
      invariant text == done + rest && AllXml(done)
      decreases |rest|
    {
      if !IsXmlChar(rest[0]) {
        ForbiddenAfter(done, rest);
        return Some(Len(text) - Len(rest));
      }
      Shift(done, rest, 1);
      done, rest := done + rest[..1], rest[1..];
    }
    assert done + rest == done;
    return None;
  }

  /** The word test: how many leading lanes to skip, all eight when nothing is marked. */
  method FirstSpecialLane(chunk: seq<Byte>) returns (skip: nat)
    requires |chunk| == 8
    ensures skip <= 8 && (forall i: nat | i < skip :: Ordinary(chunk[i]))
    ensures skip < 8 ==> !Ordinary(chunk[skip])
  {
    var special := SpecialMarks(Word(chunk));
    FirstSpecial(chunk);
    if special == 0 {
      return 8;
    }
    return TrailingZeros(special) / 8;
  }

  // --------------------------------------------------------------------- names

  /** Sorted, disjoint, inclusive character ranges. */
  type Ranges = seq<(int, int)>

  predicate Sorted(ranges: Ranges) {
    && (forall i: nat | i < |ranges| :: ranges[i].0 <= ranges[i].1)
    && (forall i: nat, j: nat | i < j < |ranges| :: ranges[i].1 < ranges[j].0)
  }

  /** `in_ranges`: a binary search for the first range ending at or after the character. */
  method InRanges(c: char, ranges: Ranges) returns (found: bool)
    requires Sorted(ranges)
    ensures found == InSome(c, ranges)
  {
    var value := c as int;
    if value > 0xFFFF {
      return false;
    }
    var low, high := 0, |ranges|;
    while low < high
      invariant 0 <= low <= high <= |ranges|
      invariant forall i: nat | i < low :: ranges[i].1 < value
      invariant forall i: nat | high <= i < |ranges| :: value <= ranges[i].1
    {
      var middle := low + (high - low) / 2;
      if ranges[middle].1 < value { low := middle + 1; } else { high := middle; }
    }
    found := low < |ranges| && ranges[low].0 <= value;
  }

  /** Membership in some range of 16-bit characters. */
  predicate InSome(c: char, ranges: Ranges) {
    c as int <= 0xFFFF && exists i: nat | i < |ranges| :: ranges[i].0 <= c as int <= ranges[i].1
  }

  /** Both editions agree on ASCII. */
  predicate AsciiNameStart(c: char) { 'a' <= c <= 'z' || 'A' <= c <= 'Z' || c == ':' || c == '_' }

  predicate AsciiNameChar(c: char) { AsciiNameStart(c) || '0' <= c <= '9' || c == '-' || c == '.' }

  /** The two editions' name classes; the Fourth Edition's non-ASCII classes are tables. */
  datatype NameRules = FifthEdition | FourthEdition(start: Ranges, extra: Ranges)
  {
    predicate IsNameStart(c: char) {
      if IsAscii(c) then AsciiNameStart(c)
      else match this
        case FifthEdition => FifthNameStart(c)
        case FourthEdition(start, _) => InSome(c, start)
    }

    predicate IsNameChar(c: char) {
      if IsAscii(c) then AsciiNameChar(c)
      else IsNameStart(c) || match this
          case FifthEdition =>
            var v := c as int;
            v == 0xB7 || 0x300 <= v <= 0x36F || 0x203F <= v <= 0x2040
          case FourthEdition(_, extra) => InSome(c, extra)
    }

    /** Production [5] of XML 1.0. */
    predicate IsName(name: string) {
      name != "" && IsNameStart(name[0]) && forall i: nat | 1 <= i < |name| :: IsNameChar(name[i])
    }

    /** A name without a colon, or two of them joined by one. */
    predicate IsQName(name: string) {
      if ':' in name then
        var k := FirstColon(name);
        IsName(name[..k]) && IsName(name[k + 1..]) && ':' !in name[k + 1..]
      else IsName(name)
    }
  }

  function FirstColon(name: string): (k: nat)
    requires ':' in name
    ensures k < |name| && name[k] == ':' && ':' !in name[..k]
  {
    if name[0] == ':' then 0 else 1 + FirstColon(name[1..])
  }

  predicate FifthNameStart(c: char) {
    var v := c as int;
    || c == ':' || c == '_' || 'A' <= c <= 'Z' || 'a' <= c <= 'z'
    || 0xC0 <= v <= 0xD6 || 0xD8 <= v <= 0xF6 || 0xF8 <= v <= 0x2FF || 0x370 <= v <= 0x37D
    || 0x37F <= v <= 0x1FFF || 0x200C <= v <= 0x200D || 0x2070 <= v <= 0x218F
    || 0x2C00 <= v <= 0x2FEF || 0x3001 <= v <= 0xD7FF || 0xF900 <= v <= 0xFDCF
    || 0xFDF0 <= v <= 0xFFFD || 0x10000 <= v <= 0xEFFFF
  }

  /** `take_name`: the longest name at the start of a text, or none. */
  method TakeName(rules: NameRules, input: string) returns (taken: Option<nat>)
    ensures taken == NamePrefix(rules, input)
  {
    if input == "" || !rules.IsNameStart(input[0]) {
      return None;
    }
    var end := 1;
    while end < |input| && rules.IsNameChar(input[end])
      invariant 1 <= end <= |input| && 1 + NameChars(rules, input[1..]) == end + NameChars(rules, input[end..])
    {
      assert input[end..][1..] == input[end + 1..];
      end := end + 1;
    }
    return Some(end);
  }

  /** How many name characters lead the text. */
  function NameChars(rules: NameRules, s: string): (n: nat)
    ensures n <= |s| && forall i: nat | i < n :: rules.IsNameChar(s[i])
    ensures n < |s| ==> !rules.IsNameChar(s[n])
  {
    if s == "" || !rules.IsNameChar(s[0]) then 0 else 1 + NameChars(rules, s[1..])
  }

  function NamePrefix(rules: NameRules, s: string): (n: Option<nat>)
    ensures n.Some? ==> 0 < n.value <= |s| && rules.IsName(s[..n.value])
  {
    if s == "" || !rules.IsNameStart(s[0]) then None else Some(1 + NameChars(rules, s[1..]))
  }

  /** A name not followed by a further name character is taken whole. */
  lemma NamePrefixOf(rules: NameRules, name: string, rest: string)
    requires rules.IsName(name) && (rest == "" || !rules.IsNameChar(rest[0]))
    ensures NamePrefix(rules, name + rest) == Some(|name|)
  {
    var s := (name + rest)[1..];
    assert s == name[1..] + rest;
    var n := NameChars(rules, s);
    assert forall i: nat | i < |name| - 1 :: s[i] == name[i + 1];
    assert rest != "" ==> s[|name| - 1] == rest[0];
  }
}
