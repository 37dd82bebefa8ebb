/** Slices and the growing buffer over the stored form of lexical text (lexical.rs). */
module LexicalBuffer {
  import opened Unicode
  import opened Lexical

  // ------------------------------------------------------------ line endings

  /** Section 2.11 of XML 1.0 on raw characters; converted ones are data and stay. */
  function Normalize(lex: seq<LexChar>): (out: seq<LexChar>)
    ensures |out| <= |lex|
  {
    if lex == [] then []
    else if lex[0] == Raw('\r') then
      [Raw('\n')] + Normalize(if |lex| > 1 && lex[1] == Raw('\n') then lex[2..] else lex[1..])
    else [lex[0]] + Normalize(lex[1..])
  }

  /** `normalize_newlines`, a single pass that remembers the previous carriage return. */
  method NormalizeNewlines(text: string) returns (output: string)
    ensures output == Scalars(Normalize(Plain(text)))
  {
    if '\r' !in text {
      NormalizeQuiet(Plain(text));
      ScalarsOfPlain(text);
      return text;
    }
    hide Normalize, Resume, Plain, Scalars;
    output := "";
    var previousCr := false;
    var i := 0;
    ResumeWhole(Plain(text));
    while i < |text|
      invariant i <= |text|
      invariant output + Scalars(Resume(Plain(text)[i..], previousCr)) == Scalars(Normalize(Plain(text)))
    {
      PlainAt(text, i);
      ResumeStep(Plain(text)[i..], previousCr);
      if text[i] == '\n' && previousCr {
        previousCr := false;
      } else {
        previousCr := text[i] == '\r';
        var character := if previousCr then '\n' else text[i];
        Associative(output, [character], Scalars(Resume(Plain(text)[i + 1..], previousCr)));
        output := output + [character];
      }
      i := i + 1;
    }
    ResumeNothing(Plain(text), previousCr);
    assert output + "" == output;
  }

  lemma ResumeWhole(lex: seq<LexChar>)
    ensures "" + Scalars(Resume(lex[0..], false)) == Scalars(Normalize(lex))
  {
    assert lex[0..] == lex;
  }

  lemma ResumeNothing(lex: seq<LexChar>, previousCr: bool)
    ensures Scalars(Resume(lex[|lex|..], previousCr)) == ""
  {}

  lemma PlainAt(text: string, i: nat)
    requires i < |text|
    ensures Plain(text)[i..] != [] && Plain(text)[i..][0] == Raw(text[i])
    ensures Plain(text)[i..][1..] == Plain(text)[i + 1..]
  {}

  /** What remains to normalize when the previous raw character was a carriage return or not. */
  function Resume(lex: seq<LexChar>, previousCr: bool): seq<LexChar> {
    if previousCr && lex != [] && lex[0] == Raw('\n') then Normalize(lex[1..]) else Normalize(lex)
  }

  lemma ResumeStep(lex: seq<LexChar>, previousCr: bool)
    requires lex != []
    ensures
      var cr := lex[0] == Raw('\r');
      Scalars(Resume(lex, previousCr)) ==
        if previousCr && lex[0] == Raw('\n') then Scalars(Resume(lex[1..], false))
        else [if cr then '\n' else lex[0].Scalar()] + Scalars(Resume(lex[1..], cr))
  {
    if lex[0] == Raw('\r') {
      var rest := if |lex| > 1 && lex[1] == Raw('\n') then lex[2..] else lex[1..];
      assert Resume(lex[1..], true) == Normalize(rest);
      assert Normalize(lex) == [Raw('\n')] + Normalize(rest);
    }
  }

  lemma {:induction false} NormalizeQuiet(lex: seq<LexChar>)
    requires Raw('\r') !in lex
    ensures Normalize(lex) == lex
  {
    if lex != [] { NormalizeQuiet(lex[1..]); }
  }

  lemma ScalarsOfPlain(s: string)
    ensures Scalars(Plain(s)) == s
  {}

  // ------------------------------------------------------------------- slices

  /** `for_slice`: the part of a slice between two of its characters. */
  function ForSlice(s: Slice, i: nat, j: nat): (part: Slice)
    requires s.Valid() && i <= j <= |s.text|
    ensures part.Valid() && part.text == s.text[i..j] && part.Chars() == s.Chars()[i..j]
  {
    var text := s.text[i..j];
    ShownSlice(s.Chars(), i, j);
    if text == "" || s.conversions == [] then
      PlainSlice(s, i, j);
      Slice(text, [], 0)
    else
      var offset := s.offset + Len(s.text[..i]);
      var first := PartitionPoint(s.conversions, offset);
      var last := PartitionPoint(s.conversions, offset + Len(text));
      TableSlice(s.Chars(), s.offset, i, j);
      WalkRecovers(s.Chars()[i..j], offset);
      Slice(text, s.conversions[first..last], offset)
  }

  lemma ShownSlice(lex: seq<LexChar>, i: nat, j: nat)
    requires i <= j <= |lex|
    ensures Shown(lex)[i..j] == Shown(lex[i..j])
  {}

  lemma PlainSlice(s: Slice, i: nat, j: nat)
    requires s.Valid() && i <= j <= |s.text|
    requires s.text[i..j] == "" || s.conversions == []
    ensures
      var part := Slice(s.text[i..j], [], 0);
      part.Valid() && part.Chars() == s.Chars()[i..j]
  {
    NoTable(s.text, s.offset);
    NoTable(s.text[i..j], 0);
    TablePlain(s.text[i..j], 0);
    assert s.text[i..j] != "" ==> s.Chars() == Plain(s.text);
    assert Plain(s.text)[i..j] == Plain(s.text[i..j]);
  }

  lemma {:induction false} NoTable(text: string, base: nat)
    ensures Walk(text, [], base) == Plain(text)
  {
    if text != "" {
      NoTable(text[1..], base + Width(text[0]));
      assert Plain(text)[1..] == Plain(text[1..]);
    }
  }

  lemma TableSlice(lex: seq<LexChar>, base: nat, i: nat, j: nat)
    requires i <= j <= |lex|
    ensures
      var from := base + Len(Shown(lex)[..i]);
      var to := from + Len(Shown(lex)[i..j]);
      var first, last := PartitionPoint(Table(lex, base), from), PartitionPoint(Table(lex, base), to);
      first <= last && Table(lex, base)[first..last] == Table(lex[i..j], from)
  {
    hide *;
    OffsetsIncrease(Shown(lex), i, j);
    TableAt(lex, base, i);
    TableAt(lex, base, j);
    assert lex[..j] == lex[..i] + lex[i..j];
    TableConcat(lex[..i], lex[i..j], base);
    ShownSlice(lex, 0, i);
    assert Shown(lex)[0..i] == Shown(lex)[..i] && lex[0..i] == lex[..i];
    Middle(Table(lex, base), Table(lex[..i], base), Table(lex[i..j], base + Len(Shown(lex)[..i])));
  }

  lemma Middle<T>(all: seq<T>, a: seq<T>, b: seq<T>)
    ensures |a| + |b| <= |all| && all[..|a| + |b|] == a + b ==> all[|a|..|a| + |b|] == b
  {
    if |a| + |b| <= |all| && all[..|a| + |b|] == a + b {
      assert all[|a|..|a| + |b|] == all[..|a| + |b|][|a|..];
    }
  }

  /** The first due conversion splits a text into raw characters, itself, and the rest. */
  lemma {:induction false} FirstConversion(lex: seq<LexChar>, base: nat) returns (m: nat)
    requires Table(lex, base) != []
    ensures m < |lex| && lex[m] == Table(lex, base)[0].Char()
    ensures Table(lex, base)[0].offset == base + Len(Shown(lex)[..m])
    ensures forall i: nat | i < m :: lex[i].Raw?
    ensures Table(lex, base)[1..] == Table(lex[m + 1..], base + Len(Shown(lex)[..m + 1]))
  {
    hide Width, Representative;
    var w := Width(lex[0].Shown());
    assert Shown(lex)[1..] == Shown(lex[1..]);
    if lex[0].Converted? {
      m := 0;
      assert Shown(lex)[..1] == [lex[0].Shown()];
    } else {
      m := FirstConversion(lex[1..], base + w);
      assert lex[m + 1] == lex[1..][m];
      assert Shown(lex)[..m + 1][1..] == Shown(lex[1..])[..m];
      assert Shown(lex)[..m + 2][1..] == Shown(lex[1..])[..m + 1];
      assert lex[m + 2..] == lex[1..][m + 1..];
      m := m + 1;
    }
  }

  /** A byte range of a string, at character boundaries. */
  function ByteSlice(text: string, from: nat, to: nat): string
    requires IsBoundary(text, from) && IsBoundary(text, to) && from <= to
  {
    IndexOrder(text, from, to);
    text[CharIndex(text, from)..CharIndex(text, to)]
  }

  lemma IndexOrder(text: string, from: nat, to: nat)
    requires IsBoundary(text, from) && IsBoundary(text, to) && from <= to
    ensures CharIndex(text, from) <= CharIndex(text, to)
  {
    var i, j := CharIndex(text, from), CharIndex(text, to);
    if j < i { OffsetsIncrease(text, j, i); }
  }

  lemma ByteSliceAt(text: string, i: nat, j: nat)
    requires i <= j <= |text|
    ensures IsBoundary(text, Len(text[..i])) && IsBoundary(text, Len(text[..j]))
    ensures Len(text[..i]) <= Len(text[..j])
    ensures ByteSlice(text, Len(text[..i]), Len(text[..j])) == text[i..j]
  {
    CharIndexAt(text, i);
    CharIndexAt(text, j);
    OffsetsIncrease(text, i, j);
  }

  lemma RawRun(lex: seq<LexChar>, i: nat, j: nat)
    requires i <= j <= |lex| && forall n: nat | i <= n < j :: lex[n].Raw?
    ensures Shown(lex)[i..j] == Scalars(lex)[i..j]
  {}

  lemma NoAliases(s: Slice)
    requires s.Valid() && !s.HasAsciiAliases()
    ensures Scalars(s.Chars()) == s.text
  {
    NoAliasesIn(s.Chars(), s.offset);
  }

  lemma {:induction false} NoAliasesIn(lex: seq<LexChar>, base: nat)
    requires forall i: nat | i < |Table(lex, base)| :: !IsAscii(Table(lex, base)[i].scalar)
    ensures Scalars(lex) == Shown(lex)
    ensures forall i: nat | i < |lex| && lex[i].Converted? :: !IsAscii(lex[i].scalar)
  {
    if lex != [] {
      var next := base + Width(lex[0].Shown());
      var due := if lex[0].Converted? then 1 else 0;
      assert Table(lex, base)[due..] == Table(lex[1..], next);
      forall i: nat | i < |Table(lex[1..], next)| ensures !IsAscii(Table(lex[1..], next)[i].scalar) {
        assert Table(lex[1..], next)[i] == Table(lex, base)[i + due];
      }
      NoAliasesIn(lex[1..], next);
      if due == 1 { assert Table(lex, base)[0].scalar == lex[0].scalar; }
      forall i: nat | i < |lex| ensures lex[i].Scalar() == lex[i].Shown() {
        if i > 0 { SameAt(lex[1..], i - 1); }
      }
    }
  }

  lemma SameAt(lex: seq<LexChar>, i: nat)
    requires i < |lex| && Scalars(lex) == Shown(lex)
    ensures lex[i].Scalar() == lex[i].Shown()
  {
    assert Scalars(lex)[i] == Shown(lex)[i];
  }

  /** The decoding loop after `n` conversions: `k` characters decoded, `cursor` bytes read. */
  ghost predicate Decoded(s: Slice, k: nat, n: nat, cursor: nat, output: string) {
    && s.Valid() && n <= |s.conversions| && k <= |s.text| && cursor == Len(s.text[..k])
    && output == Scalars(s.Chars())[..k]
    && s.conversions[n..] == Table(s.Chars()[k..], s.offset + cursor)
  }

  lemma DecodedStart(s: Slice)
    requires s.Valid()
    ensures Decoded(s, 0, 0, 0, "")
  {
    assert s.Chars()[0..] == s.Chars() && s.text[..0] == "";
  }

  /** The next due conversion, `m` raw characters ahead. */
  lemma NextConversion(s: Slice, k: nat, n: nat, cursor: nat) returns (m: nat)
    requires s.Valid() && n < |s.conversions| && k <= |s.text|
    requires s.conversions[n..] == Table(s.Chars()[k..], s.offset + cursor)
    ensures k + m < |s.text| && s.Chars()[k + m] == s.conversions[n].Char()
    ensures forall i: nat | k <= i < k + m :: s.Chars()[i].Raw?
    ensures s.conversions[n].offset == s.offset + cursor + Len(s.text[k..][..m])
    ensures s.conversions[n + 1..] == Table(s.Chars()[k + m + 1..], s.offset + cursor + Len(s.text[k..][..m + 1]))
  {
    hide Width, Representative, Walk, Table, Len;
    var lex, rest := s.Chars(), s.Chars()[k..];
    m := FirstConversion(rest, s.offset + cursor);
    forall i: nat | k <= i < k + m ensures lex[i].Raw? { assert lex[i] == rest[i - k]; }
    ShownSlice(lex, k, |lex|);
    assert rest == lex[k..|lex|] && s.text[k..] == s.text[k..|lex|];
    assert rest[m + 1..] == lex[k + m + 1..];
    assert s.conversions[n..][1..] == s.conversions[n + 1..];
  }

  /** One conversion of the loop: raw characters up to `k + m`, then the converted one. */
  lemma DecodedStep(s: Slice, k: nat, n: nat, cursor: nat, output: string) returns (m: nat)
    requires Decoded(s, k, n, cursor, output) && n < |s.conversions|
    ensures
      var conversion := s.conversions[n];
      var start := conversion.offset - s.offset;
      && k + m < |s.text| && start == Len(s.text[..k + m]) && cursor == Len(s.text[..k])
      && Decoded(s, k + m + 1, n + 1, start + Width(conversion.Shown()),
                 output + s.text[k..k + m] + [conversion.scalar])
  {
    m := NextConversion(s, k, n, cursor);
    DecodedOffsets(s, k, m, n);
    DecodedOutput(s, k, m, n);
  }

  lemma DecodedOffsets(s: Slice, k: nat, m: nat, n: nat)
    requires s.Valid() && k + m < |s.text| && n < |s.conversions| && s.Chars()[k + m] == s.conversions[n].Char()
    ensures Len(s.text[..k]) + Len(s.text[k..][..m]) == Len(s.text[..k + m])
    ensures Len(s.text[..k]) + Len(s.text[k..][..m + 1]) == Len(s.text[..k + m + 1])
    ensures Len(s.text[..k + m + 1]) == Len(s.text[..k + m]) + Width(s.conversions[n].Shown())
  {
    StoredShown(s, k + m, n);
    OffsetAcross(s.text, k, m);
    OffsetAcross(s.text, k, m + 1);
    OffsetStep(s.text, k + m);
  }

  lemma DecodedOutput(s: Slice, k: nat, m: nat, n: nat)
    requires s.Valid() && k + m < |s.text| && n < |s.conversions| && s.Chars()[k + m] == s.conversions[n].Char()
    requires forall i: nat | k <= i < k + m :: s.Chars()[i].Raw?
    ensures Scalars(s.Chars())[..k] + s.text[k..k + m] + [s.conversions[n].scalar]
         == Scalars(s.Chars())[..k + m + 1]
  {
    RawRun(s.Chars(), k, k + m);
    StoredShown(s, k + m, n);
    ScalarsStep(s.Chars(), k, m);
  }

  lemma StoredShown(s: Slice, k: nat, n: nat)
    requires s.Valid() && k < |s.text| && n < |s.conversions| && s.Chars()[k] == s.conversions[n].Char()
    ensures s.text[k] == s.conversions[n].Shown() && s.Chars()[k].Scalar() == s.conversions[n].scalar
  {
    assert Shown(s.Chars())[k] == s.Chars()[k].Shown();
  }

  lemma ScalarsStep(lex: seq<LexChar>, k: nat, m: nat)
    requires k + m < |lex|
    ensures Scalars(lex)[..k + m + 1] == Scalars(lex)[..k] + Scalars(lex)[k..k + m] + [lex[k + m].Scalar()]
  {}

  lemma OffsetAcross(text: string, k: nat, m: nat)
    requires k + m <= |text|
    ensures Len(text[..k]) + Len(text[k..][..m]) == Len(text[..k + m])
  {
    OffsetsIncrease(text, k, k + m);
    assert text[k..][..m] == text[k..k + m];
  }

  lemma DecodedEnd(s: Slice, k: nat, n: nat, cursor: nat, output: string)
    requires Decoded(s, k, n, cursor, output) && n == |s.conversions|
    ensures IsBoundary(s.text, cursor) && IsBoundary(s.text, Len(s.text)) && cursor <= Len(s.text)
    ensures output + ByteSlice(s.text, cursor, Len(s.text)) == Scalars(s.Chars())
  {
    var lex := s.Chars();
    NoConversions(lex[k..], s.offset + cursor);
    forall i: nat | k <= i < |lex| ensures lex[i].Raw? { assert lex[i] == lex[k..][i - k]; }
    RawRun(lex, k, |lex|);
    ByteSliceAt(s.text, k, |s.text|);
    assert s.text[..|s.text|] == s.text;
  }

  lemma {:induction false} NoConversions(lex: seq<LexChar>, base: nat)
    requires Table(lex, base) == []
    ensures forall i: nat | i < |lex| :: lex[i].Raw?
  {
    if lex != [] { NoConversions(lex[1..], base + Width(lex[0].Shown())); }
  }

  /** Restore every converted scalar; without ASCII aliases the text already holds them. */
  method Decode(s: Slice) returns (output: string)
    requires s.Valid()
    ensures output == Scalars(s.Chars())
  {
    hide Width, Representative, Slice.Valid, Slice.Chars, Len, Scalars, Decoded, ByteSlice;
    if !s.HasAsciiAliases() {
      NoAliases(s);
      return s.text;
    }
    output := "";
    var cursor: nat := 0;
    ghost var k: nat := 0;
    var n := 0;
    DecodedStart(s);
    while n < |s.conversions|
      invariant n <= |s.conversions| && Decoded(s, k, n, cursor, output)
    {
      var conversion := s.conversions[n];
      ghost var m := DecodedStep(s, k, n, cursor, output);
      ByteSliceAt(s.text, k, k + m);
      var start := conversion.offset - s.offset;
      output := output + ByteSlice(s.text, cursor, start) + [conversion.scalar];
      cursor := start + Width(conversion.Shown());
      k, n := k + m + 1, n + 1;
    }
    DecodedEnd(s, k, n, cursor, output);
    output := output + ByteSlice(s.text, cursor, Len(s.text));
  }

  /** `normalized`: the meaning of a text whose raw line ends, and no others, became line feeds. */
  method Normalized(s: Slice) returns (output: string)
    requires s.Valid()
    ensures output == Scalars(Normalize(s.Chars()))
  {
    if !s.HasAsciiAliases() {
      NoAliasesIn(s.Chars(), s.offset);
      NormalizeIgnoresOpaque(s.Chars());
      output := NormalizeNewlines(s.text);
      return;
    }
    ghost var lex := s.Chars();
    output := "";
    var previousCr := false;
    var i := 0;
    ResumeEnds(lex, false);
    assert lex[0..] == lex;
    while i < |s.text|
      invariant i <= |s.text|
      invariant output + Scalars(Resume(lex[i..], previousCr)) == Scalars(Normalize(lex))
    {
      hide *;
      var (scalar, rawAscii) := DecodedChar(s, i);
      DecodedCharAt(s, i);
      assert lex[i..][0] == lex[i] && lex[i..][1..] == lex[i + 1..];
      ResumeStep(lex[i..], previousCr);
      Associative(output, [if rawAscii && scalar == '\r' then '\n' else scalar],
                  Scalars(Resume(lex[i + 1..], rawAscii && scalar == '\r')));
      if rawAscii && scalar == '\n' && previousCr {
        previousCr := false;
      } else {
        previousCr := rawAscii && scalar == '\r';
        output := output + [if previousCr then '\n' else scalar];
      }
      i := i + 1;
    }
    assert lex[i..] == [];
    ResumeEnds(lex, previousCr);
  }

  lemma DecodedCharAt(s: Slice, i: nat)
    requires i < |s.text|
    ensures DecodedChar(s, i).0 == s.Chars()[i].Scalar()
    ensures DecodedChar(s, i).1 ==> s.Chars()[i].Raw? && s.Chars()[i].c == DecodedChar(s, i).0
    ensures s.Chars()[i] == Raw('\r') <==> DecodedChar(s, i) == ('\r', true)
    ensures s.Chars()[i] == Raw('\n') <==> DecodedChar(s, i) == ('\n', true)
  {}

  lemma ResumeEnds(lex: seq<LexChar>, previousCr: bool)
    ensures Resume(lex, false) == Normalize(lex) && Scalars(Resume([], previousCr)) == ""
  {}

  /** One item of `decoded_chars`: a semantic character and whether it came from raw ASCII. */
  function DecodedChar(s: Slice, i: nat): (char, bool)
    requires i < |s.text|
  {
    var c := s.Chars()[i];
    (c.Scalar(), c.Raw? && IsAscii(c.c))
  }

  lemma {:induction false} NormalizeIgnoresOpaque(lex: seq<LexChar>)
    requires forall i: nat | i < |lex| && lex[i].Converted? :: !IsAscii(lex[i].scalar)
    ensures Scalars(Normalize(lex)) == Scalars(Normalize(Plain(Shown(lex))))
    decreases |lex|
  {
    if lex != [] {
      var plain := Plain(Shown(lex));
      if lex[0] == Raw('\r') {
        var skip := if |lex| > 1 && lex[1] == Raw('\n') then 2 else 1;
        assert plain[skip..] == Plain(Shown(lex[skip..]));
        assert |lex| > 1 ==> (lex[1] == Raw('\n') <==> plain[1] == Raw('\n'));
        NormalizeIgnoresOpaque(lex[skip..]);
        assert Normalize(lex) == [Raw('\n')] + Normalize(lex[skip..]);
        assert Normalize(plain) == [Raw('\n')] + Normalize(plain[skip..]);
        ScalarsCons(Raw('\n'), Normalize(lex[skip..]));
        ScalarsCons(Raw('\n'), Normalize(plain[skip..]));
      } else {
        assert plain[1..] == Plain(Shown(lex[1..]));
        NormalizeIgnoresOpaque(lex[1..]);
        assert plain[0] != Raw('\r') && plain[0].Scalar() == lex[0].Scalar();
        ScalarsCons(lex[0], Normalize(lex[1..]));
        ScalarsCons(plain[0], Normalize(plain[1..]));
      }
    }
  }

  lemma ScalarsCons(c: LexChar, rest: seq<LexChar>)
    ensures Scalars([c] + rest) == [c.Scalar()] + Scalars(rest)
  {}

  // --------------------------------------------------------------- name spelling

  /** One converted character of a name: where it stands and the bytes it was spelled with. */
  datatype NameEncoding = NameEncoding(offset: nat, bytes: seq<Byte>, length: nat)

  function NameEncodings(s: Slice): (names: seq<NameEncoding>)
    requires s.Valid()
    ensures |names| == |s.conversions|
  {
    TableWithin(s.Chars(), s.offset);
    seq(|s.conversions|, i requires 0 <= i < |s.conversions| =>
      assert s.conversions[i] in s.conversions;
      NameEncoding(s.conversions[i].offset - s.offset, s.conversions[i].bytes, s.conversions[i].length))
  }

  /** `same_name_encoding`: compare with the spelling kept from an opening tag. */
  predicate SameNameEncoding(s: Slice, expected: seq<NameEncoding>)
    requires s.Valid()
  {
    NameEncodings(s) == expected
  }

  /** How one character was spelled in the input. */
  datatype Spelling = AsIs | Encoded(bytes: seq<Byte>, length: nat)

  function SpellingOf(c: LexChar): Spelling {
    match c case Raw(_) => AsIs case Converted(_, b, n, _) => Encoded(b, n)
  }

  /** Two names shown alike have the same encoding exactly when every character was spelled alike. */
  lemma SameNameExactly(a: Slice, b: Slice)
    requires a.Valid() && b.Valid() && a.text == b.text
    ensures SameNameEncoding(a, NameEncodings(b))
       <==> forall i: nat | i < |a.text| :: SpellingOf(a.Chars()[i]) == SpellingOf(b.Chars()[i])
  {
    var x, y := a.Chars(), b.Chars();
    RelativeTable(a);
    RelativeTable(b);
    if forall i: nat | i < |x| :: SpellingOf(x[i]) == SpellingOf(y[i]) { SpelledAlike(x, y, 0); }
    if SameNameEncoding(a, NameEncodings(b)) { AlikeSpelled(x, y, 0); }
  }

  function Spellings(lex: seq<LexChar>, base: nat): seq<NameEncoding> {
    if lex == [] then []
    else
      var rest := Spellings(lex[1..], base + Width(lex[0].Shown()));
      match lex[0] case Raw(_) => rest case Converted(_, b, n, _) => [NameEncoding(base, b, n)] + rest
  }

  function SpellingAt(c: Conversion): NameEncoding { NameEncoding(c.offset, c.bytes, c.length) }

  lemma RelativeTable(s: Slice)
    requires s.Valid()
    ensures NameEncodings(s) == Spellings(s.Chars(), 0)
  {
    TableMoved(s.Chars(), s.offset, 0);
    SpellingsOfTable(s.Chars(), 0);
  }

  lemma {:induction false} SpellingsOfTable(lex: seq<LexChar>, base: nat)
    ensures |Spellings(lex, base)| == |Table(lex, base)|
    ensures forall i: nat | i < |Table(lex, base)| :: Spellings(lex, base)[i] == SpellingAt(Table(lex, base)[i])
  {
    hide Width, Representative;
    if lex != [] { SpellingsOfTable(lex[1..], base + Width(lex[0].Shown())); }
  }

  lemma {:induction false} SpelledAlike(x: seq<LexChar>, y: seq<LexChar>, base: nat)
    requires Shown(x) == Shown(y) && forall i: nat | i < |x| :: SpellingOf(x[i]) == SpellingOf(y[i])
    ensures Spellings(x, base) == Spellings(y, base)
  {
    hide Width, Representative;
    assert |x| == |Shown(x)| == |Shown(y)| == |y|;
    if x != [] {
      assert x[0].Shown() == Shown(x)[0] == Shown(y)[0] == y[0].Shown();
      assert Shown(x[1..]) == Shown(x)[1..] == Shown(y)[1..] == Shown(y[1..]);
      assert SpellingOf(x[0]) == SpellingOf(y[0]);
      SpelledAlike(x[1..], y[1..], base + Width(x[0].Shown()));
    }
  }

  lemma {:induction false} AlikeSpelled(x: seq<LexChar>, y: seq<LexChar>, base: nat)
    requires Shown(x) == Shown(y) && Spellings(x, base) == Spellings(y, base)
    ensures |x| == |y| && forall i: nat | i < |x| :: SpellingOf(x[i]) == SpellingOf(y[i])
  {
    hide Width, Representative;
    assert |x| == |Shown(x)| == |Shown(y)| == |y|;
    if x != [] {
      var next := base + Width(x[0].Shown());
      assert x[0].Shown() == Shown(x)[0] == Shown(y)[0] == y[0].Shown();
      assert Shown(x[1..]) == Shown(x)[1..] == Shown(y)[1..] == Shown(y[1..]);
      SpellingsLater(x[1..], next);
      SpellingsLater(y[1..], next);
      HeadSpelling(x, base);
      HeadSpelling(y, base);
      AlikeSpelled(x[1..], y[1..], next);
      forall i: nat | i < |x| ensures SpellingOf(x[i]) == SpellingOf(y[i]) {
        if i > 0 { assert x[i] == x[1..][i - 1] && y[i] == y[1..][i - 1]; }
      }
    }
  }

  lemma HeadSpelling(x: seq<LexChar>, base: nat)
    requires x != [] && forall e | e in Spellings(x[1..], base + Width(x[0].Shown())) :: base < e.offset
    ensures
      var all := Spellings(x, base);
      var due := all != [] && all[0].offset == base;
      && SpellingOf(x[0]) == (if due then Encoded(all[0].bytes, all[0].length) else AsIs)
      && Spellings(x[1..], base + Width(x[0].Shown())) == if due then all[1..] else all
  {
    hide Width, Representative;
    var rest := Spellings(x[1..], base + Width(x[0].Shown()));
    if x[0].Raw? && rest != [] { assert rest[0] in rest; }
  }

  lemma {:induction false} SpellingsLater(lex: seq<LexChar>, base: nat)
    ensures forall e | e in Spellings(lex, base) :: base <= e.offset
  {
    hide Representative;
    if lex != [] { SpellingsLater(lex[1..], base + Width(lex[0].Shown())); }
  }

  /** What stays of a text at offset zero when its first characters go. */
  lemma Discarded(s: Slice, k: nat)
    requires s.Valid() && s.offset == 0 && k <= |s.text|
    ensures
      var length := Len(s.text[..k]);
      var kept := s.conversions[PartitionPoint(s.conversions, length)..];
      && k <= |s.Chars()| && (forall i: nat | i < |kept| :: length <= kept[i].offset)
      && var rest := Slice(s.text[k..], Rebase(kept, length, 0), 0);
         rest.Valid() && rest.Chars() == s.Chars()[k..]
  {
    hide Walk, Table, Rebase, PartitionPoint, Width, Len;
    var lex, length := s.Chars(), Len(s.text[..k]);
    TableAt(lex, 0, k);
    ShownSlice(lex, k, |lex|);
    assert lex[k..|lex|] == lex[k..] && s.text[k..|s.text|] == s.text[k..];
    WalkRecovers(lex[k..], 0);
    TableWithin(lex[k..], length);
    TableRebase(lex[k..], length, 0);
  }

  // -------------------------------------------------------------------- buffer

  /** `Buffer`: a growing lexical text. */
  class Buffer {
    var text: string
    var conversions: seq<Conversion>

    function View(): Slice
      reads this
    {
      Slice(text, conversions, 0)
    }

    predicate Valid()
      reads this
    {
      View().Valid()
    }

    /** The lexical characters the buffer stands for. */
    function Contents(): seq<LexChar>
      reads this
    {
      View().Chars()
    }

    constructor (text: string)
      ensures Valid() && Contents() == Plain(text) && this.text == text
    {
      this.text, this.conversions := text, [];
      new;
      NoTable(text, 0);
      TablePlain(text, 0);
    }

    /** Appending raw text. */
    method PushStr(more: string)
      requires Valid()
      modifies this
      ensures Valid() && Contents() == old(Contents()) + Plain(more) && text == old(text) + more
    {
      AppendRepresents(View(), Plain(more));
      TablePlain(more, Len(text));
      assert conversions + [] == conversions;
      text := text + more;
    }

    /** Appending one converted character, shown by its representative. */
    method PushConversion(scalar: char, bytes: seq<Byte>, length: nat, publicValid: bool) returns (lexical: char)
      requires Valid()
      modifies this
      ensures Valid() && Contents() == old(Contents()) + [Converted(scalar, bytes, length, publicValid)]
      ensures text == old(text) + [lexical] && lexical == Converted(scalar, bytes, length, publicValid).Shown()
    {
      var conversion := Conversion(Len(text), scalar, bytes, length, publicValid);
      lexical := conversion.Shown();
      var added := [conversion.Char()];
      AppendRepresents(View(), added);
      SingleTable(conversion.Char(), Len(text));
      text := text + [lexical];
      conversions := conversions + [conversion];
    }

    /** Appending a slice rebases its conversions to the end of the buffer. */
    method Append(value: Slice)
      requires Valid() && value.Valid()
      modifies this
      ensures Valid() && Contents() == old(Contents()) + value.Chars() && text == old(text) + value.text
    {
      AppendRepresents(View(), value.Chars());
      TableWithin(value.Chars(), value.offset);
      TableRebase(value.Chars(), value.offset, Len(text));
      var base := Len(text);
      text := text + value.text;
      conversions := conversions + Rebase(value.conversions, value.offset, base);
    }

    /** Keep the first `length` bytes. */
    method Truncate(length: nat)
      requires Valid() && IsBoundary(text, length)
      modifies this
      ensures Valid() && Contents() == old(Contents()[..CharIndex(text, length)])
    {
      var k := CharIndex(text, length);
      TableAt(Contents(), 0, k);
      ShownSlice(Contents(), 0, k);
      WalkRecovers(Contents()[..k], 0);
      text := text[..k];
      conversions := conversions[..PartitionPoint(conversions, length)];
    }

    /** Drop the first `length` bytes. */
    method DiscardPrefix(length: nat)
      requires Valid() && IsBoundary(text, length)
      modifies this
      ensures Valid() && Contents() == old(Contents()[CharIndex(text, length)..])
      ensures text == old(text[CharIndex(text, length)..])
    {
      hide Walk, Table, Lexical.Shown, Rebase, PartitionPoint;
      var k := CharIndex(text, length);
      Discarded(View(), k);
      var kept := conversions[PartitionPoint(conversions, length)..];
      text := text[k..];
      conversions := Rebase(kept, length, 0);
    }

    /** Publish the decoded text and keep the output's old storage. */
    method SwapDecoded(output: string) returns (decoded: string)
      requires Valid()
      modifies this
      ensures decoded == old(Scalars(Contents()))
      ensures Valid() && Contents() == Plain(output)
    {
      if View().HasAsciiAliases() {
        decoded := Decode(View());
      } else {
        NoAliases(View());
        decoded := text;
      }
      text, conversions := output, [];
      NoTable(output, 0);
      TablePlain(output, 0);
    }
  }

  /** `to_owned`: a copy rebased to its own first byte. */
  function ToOwned(s: Slice): (copy: Slice)
    requires s.Valid()
    ensures copy.Valid() && copy.offset == 0 && copy.text == s.text && copy.Chars() == s.Chars()
  {
    TableWithin(s.Chars(), s.offset);
    TableRebase(s.Chars(), s.offset, 0);
    WalkRecovers(s.Chars(), 0);
    Slice(s.text, Rebase(s.conversions, s.offset, 0), 0)
  }

  lemma AppendRepresents(s: Slice, more: seq<LexChar>)
    requires s.Valid()
    ensures
      var longer := Slice(s.text + Shown(more), s.conversions + Table(more, s.offset + Len(s.text)), s.offset);
      longer.Valid() && longer.Chars() == s.Chars() + more
  {
    hide Width, Representative, Table, Len, Walk;
    TableConcat(s.Chars(), more, s.offset);
    WalkRecovers(s.Chars() + more, s.offset);
  }

  lemma SingleTable(c: LexChar, base: nat)
    requires c.Converted?
    ensures Table([c], base) == [Conversion(base, c.scalar, c.bytes, c.length, c.publicValid)]
    ensures Shown([c]) == [c.Shown()]
  {}
}
