/** Converted character data kept apart from raw ASCII syntax (lexical.rs).

    A text is a sequence of lexical characters: raw ones, and ones a custom
    encoding converted from other bytes. The stored form is a string in which a
    multibyte conversion shows only a representative of its name class, beside a
    table of conversions addressed by byte offset. */
module Lexical {
  import opened Unicode
  import opened Names

  datatype LexChar = Raw(c: char) | Converted(scalar: char, bytes: seq<Byte>, length: nat, publicValid: bool)
  {
    /** What the character means. */
    function Scalar(): char {
      match this case Raw(c) => c case Converted(s, _, _, _) => s
    }

    /** What the scanners see. */
    function Shown(): char {
      match this
      case Raw(c) => c
      case Converted(s, _, length, _) => if length == 1 then s else Representative(s)
    }
  }

  /** A non-ASCII character of the same Fifth Edition name class. */
  function Representative(scalar: char): char {
    if !IsAscii(scalar) then scalar
    else if AsciiNameStart(scalar) then '\U{C0}'
    else if AsciiNameChar(scalar) then '\U{B7}'
    else '\U{E000}'
  }

  /** A converted character is never taken for markup, yet keeps its place in names. */
  lemma RepresentativeClass(c: char)
    ensures !IsAscii(Representative(c))
    ensures FifthEdition.IsNameStart(Representative(c)) == FifthEdition.IsNameStart(c)
    ensures FifthEdition.IsNameChar(Representative(c)) == FifthEdition.IsNameChar(c)
  {}

  datatype Conversion = Conversion(offset: nat, scalar: char, bytes: seq<Byte>, length: nat, publicValid: bool)
  {
    function Char(): LexChar { Converted(scalar, bytes, length, publicValid) }

    /** `Conversion::lexical`. */
    function Shown(): char { if length == 1 then scalar else Representative(scalar) }
  }

  function Shown(lex: seq<LexChar>): (s: string)
    ensures |s| == |lex|
  {
    seq(|lex|, i requires 0 <= i < |lex| => lex[i].Shown())
  }

  function Scalars(lex: seq<LexChar>): (s: string)
    ensures |s| == |lex|
  {
    seq(|lex|, i requires 0 <= i < |lex| => lex[i].Scalar())
  }

  function Plain(s: string): (lex: seq<LexChar>)
    ensures |lex| == |s|
  {
    seq(|s|, i requires 0 <= i < |s| => Raw(s[i]))
  }

  /** The conversions of a text whose first byte has offset `base`. */
  function Table(lex: seq<LexChar>, base: nat): seq<Conversion> {
    if lex == [] then []
    else
      var rest := Table(lex[1..], base + Width(lex[0].Shown()));
      match lex[0]
      case Raw(_) => rest
      case Converted(s, b, n, p) => [Conversion(base, s, b, n, p)] + rest
  }

  /** `decoded_chars`: walk the string, taking a conversion wherever the next one is due. */
  function Walk(text: string, table: seq<Conversion>, base: nat): (lex: seq<LexChar>)
    ensures |lex| == |text|
  {
    if text == "" then []
    else if table != [] && table[0].offset == base then
      [table[0].Char()] + Walk(text[1..], table[1..], base + Width(text[0]))
    else
      [Raw(text[0])] + Walk(text[1..], table, base + Width(text[0]))
  }

  /** The walk recovers every character: a genuine representative is never mistaken for a conversion. */
  lemma {:induction false} WalkRecovers(lex: seq<LexChar>, base: nat)
    ensures Walk(Shown(lex), Table(lex, base), base) == lex
  {
    hide Width, Representative;
    if lex != [] {
      var text, table := Shown(lex), Table(lex, base);
      var next := base + Width(text[0]);
      var rest := Table(lex[1..], next);
      assert text[1..] == Shown(lex[1..]);
      WalkRecovers(lex[1..], next);
      TableWithin(lex[1..], next);
      if lex[0].Raw? {
        assert table == rest && (rest != [] ==> rest[0] in rest);
        assert Walk(text, table, base) == [Raw(text[0])] + Walk(text[1..], rest, next);
      } else {
        assert table[1..] == rest && table[0].Char() == lex[0];
        assert Walk(text, table, base) == [lex[0]] + Walk(text[1..], rest, next);
      }
    }
  }

  // ------------------------------------------------------------- table lemmas

  lemma {:induction false} TableWithin(lex: seq<LexChar>, base: nat)
    ensures forall c | c in Table(lex, base) :: base <= c.offset < base + Len(Shown(lex))
  {
    hide Width, Representative;
    if lex != [] {
      assert Shown(lex)[1..] == Shown(lex[1..]);
      TableWithin(lex[1..], base + Width(lex[0].Shown()));
    }
  }

  lemma {:induction false} TableConcat(a: seq<LexChar>, b: seq<LexChar>, base: nat)
    ensures Table(a + b, base) == Table(a, base) + Table(b, base + Len(Shown(a)))
    ensures Shown(a + b) == Shown(a) + Shown(b)
  {
    hide Width, Representative;
    if a == [] {
      assert a + b == b;
    } else {
      assert (a + b)[1..] == a[1..] + b;
      assert Shown(a)[1..] == Shown(a[1..]);
      var next := base + Width(a[0].Shown());
      TableConcat(a[1..], b, next);
      assert next + Len(Shown(a[1..])) == base + Len(Shown(a));
      if a[0].Converted? {
        Associative([Table(a, base)[0]], Table(a[1..], next), Table(b, base + Len(Shown(a))));
      }
    }
  }

  lemma {:induction false} TablePlain(s: string, base: nat)
    ensures Table(Plain(s), base) == [] && Shown(Plain(s)) == s
  {
    if s != "" {
      assert Plain(s)[1..] == Plain(s[1..]);
      TablePlain(s[1..], base + Width(s[0]));
    }
  }

  /** The same conversions seen from another origin. */
  function Rebase(table: seq<Conversion>, from: nat, target: nat): (moved: seq<Conversion>)
    requires forall i: nat | i < |table| :: from <= table[i].offset
  {
    seq(|table|, i requires 0 <= i < |table| => table[i].(offset := target + (table[i].offset - from)))
  }

  predicate Moved(a: seq<Conversion>, b: seq<Conversion>, delta: int) {
    |a| == |b| && forall i: nat | i < |a| :: b[i].offset == a[i].offset + delta && b[i].Char() == a[i].Char()
  }

  lemma {:induction false} TableMoved(lex: seq<LexChar>, from: nat, target: nat)
    ensures Moved(Table(lex, from), Table(lex, target), target - from)
  {
    hide Width, Representative;
    if lex != [] {
      var w := Width(lex[0].Shown());
      TableMoved(lex[1..], from + w, target + w);
    }
  }

  lemma TableRebase(lex: seq<LexChar>, from: nat, target: nat)
    requires forall i: nat | i < |Table(lex, from)| :: from <= Table(lex, from)[i].offset
    ensures Rebase(Table(lex, from), from, target) == Table(lex, target)
  {
    TableMoved(lex, from, target);
  }

  /** `partition_point(|entry| entry.offset < bound)`. */
  function PartitionPoint(table: seq<Conversion>, bound: nat): (n: nat)
    ensures n <= |table|
  {
    if table == [] || bound <= table[0].offset then 0 else 1 + PartitionPoint(table[1..], bound)
  }

  lemma {:induction false} PartitionSplits(a: seq<Conversion>, b: seq<Conversion>, bound: nat)
    requires forall c | c in a :: c.offset < bound
    requires forall c | c in b :: bound <= c.offset
    ensures PartitionPoint(a + b, bound) == |a|
  {
    if a == [] {
      assert a + b == b;
    } else {
      assert a[0] in a;
      assert (a + b)[1..] == a[1..] + b;
      PartitionSplits(a[1..], b, bound);
    }
  }

  /** Partitioning the table at a character boundary separates the conversions before and after it. */
  lemma TableAt(lex: seq<LexChar>, base: nat, k: nat)
    requires k <= |lex|
    ensures
      var bound := base + Len(Shown(lex)[..k]);
      var n := PartitionPoint(Table(lex, base), bound);
      Table(lex, base)[..n] == Table(lex[..k], base) && Table(lex, base)[n..] == Table(lex[k..], bound)
  {
    assert Shown(lex)[..k] == Shown(lex[..k]);
    assert lex == lex[..k] + lex[k..];
    TableConcat(lex[..k], lex[k..], base);
    var bound := base + Len(Shown(lex[..k]));
    TableWithin(lex[..k], base);
    TableWithin(lex[k..], bound);
    PartitionSplits(Table(lex[..k], base), Table(lex[k..], bound), bound);
  }

  // ------------------------------------------------------------------- slices

  datatype Slice = Slice(text: string, conversions: seq<Conversion>, offset: nat)
  {
    function Chars(): (lex: seq<LexChar>) { Walk(text, conversions, offset) }

    /** The stored pair is the representation of some lexical text. */
    predicate Valid() { Shown(Chars()) == text && Table(Chars(), offset) == conversions }

    /** What the invariant says entry by entry. */
    predicate Consistent() {
      && (forall i: nat, j: nat | i < j < |conversions| :: conversions[i].offset < conversions[j].offset)
      && (forall i: nat | i < |conversions| :: Stored(conversions[i]))
    }

    /** The entry addresses a character boundary that stores its representative. */
    predicate Stored(entry: Conversion) {
      exists k: nat | k < |text| :: entry.offset == offset + Len(text[..k]) && text[k] == entry.Shown()
    }

    predicate HasAsciiAliases() {
      exists i: nat | i < |conversions| :: IsAscii(conversions[i].scalar)
    }
  }

  function Represent(lex: seq<LexChar>, base: nat): (s: Slice)
    ensures s.Valid() && s.Chars() == lex
  {
    WalkRecovers(lex, base);
    Slice(Shown(lex), Table(lex, base), base)
  }

  /** The table invariant, exactly: sorted offsets on boundaries that store the representatives. */
  lemma ValidIffConsistent(s: Slice)
    ensures s.Valid() <==> s.Consistent()
  {
    if s.Valid() { ValidIsConsistent(s.Chars(), s.offset); }
    if s.Consistent() { ConsistentIsValid(s); }
  }

  lemma {:induction false} ValidIsConsistent(lex: seq<LexChar>, base: nat)
    ensures Slice(Shown(lex), Table(lex, base), base).Consistent()
  {
    if lex != [] {
      var s := Slice(Shown(lex), Table(lex, base), base);
      var next := base + Width(lex[0].Shown());
      var t := Slice(Shown(lex[1..]), Table(lex[1..], next), next);
      ValidIsConsistent(lex[1..], next);
      TableWithin(lex[1..], next);
      assert s.text[1..] == t.text;
      if lex[0].Converted? {
        assert s.text[..0] == "" && s.Stored(s.conversions[0]);
        PrependedConsistent(s, t, 1);
      } else {
        PrependedConsistent(s, t, 0);
      }
    }
  }

  lemma PrependedConsistent(s: Slice, t: Slice, due: nat)
    requires s.text != "" && s.text[1..] == t.text && t.offset == s.offset + Width(s.text[0])
    requires due <= |s.conversions| && due <= 1 && s.conversions[due..] == t.conversions
    requires due == 1 ==> s.conversions[0].offset == s.offset && s.Stored(s.conversions[0])
    requires t.Consistent() && forall i: nat | i < |t.conversions| :: t.offset <= t.conversions[i].offset
    ensures s.Consistent()
  {
    forall i: nat | due <= i < |s.conversions| ensures s.Stored(s.conversions[i]) {
      StoredLater(s, t, t.conversions[i - due]);
    }
    PrependedSorted(s.conversions, t.conversions, due, s.offset);
  }

  lemma PrependedSorted(all: seq<Conversion>, rest: seq<Conversion>, due: nat, offset: nat)
    requires due <= |all| && due <= 1 && all[due..] == rest && (due == 1 ==> all[0].offset == offset)
    requires forall i: nat, j: nat | i < j < |rest| :: rest[i].offset < rest[j].offset
    requires forall i: nat | i < |rest| :: offset < rest[i].offset
    ensures forall i: nat, j: nat | i < j < |all| :: all[i].offset < all[j].offset
  {
    forall i: nat, j: nat | i < j < |all| ensures all[i].offset < all[j].offset {
      assert all[j] == rest[j - due];
      if i >= due { assert all[i] == rest[i - due]; }
    }
  }

  lemma StoredLater(s: Slice, t: Slice, entry: Conversion)
    requires s.text != "" && s.text[1..] == t.text && t.offset == s.offset + Width(s.text[0])
    requires t.Stored(entry)
    ensures s.Stored(entry)
  {
    var k: nat :| k < |t.text| && entry.offset == t.offset + Len(t.text[..k]) && t.text[k] == entry.Shown();
    assert s.text[..k + 1][1..] == t.text[..k];
    assert s.text[k + 1] == entry.Shown();
  }

  lemma StoredEarlier(s: Slice, t: Slice, entry: Conversion)
    requires s.text != "" && s.text[1..] == t.text && t.offset == s.offset + Width(s.text[0])
    requires s.Stored(entry) && entry.offset != s.offset
    ensures t.Stored(entry) && s.offset < entry.offset
  {
    var k: nat :| k < |s.text| && entry.offset == s.offset + Len(s.text[..k]) && s.text[k] == entry.Shown();
    assert k > 0;
    assert s.text[..k][1..] == t.text[..k - 1];
    assert t.text[k - 1] == entry.Shown();
  }

  lemma {:induction false} ConsistentIsValid(s: Slice)
    requires s.Consistent()
    ensures s.Valid()
    decreases |s.text|
  {
    if s.text == "" {
      assert s.conversions == [] || s.Stored(s.conversions[0]);
    } else {
      var due := if s.conversions != [] && s.conversions[0].offset == s.offset then 1 else 0;
      var t := Slice(s.text[1..], s.conversions[due..], s.offset + Width(s.text[0]));
      TailConsistent(s, t, due);
      ConsistentIsValid(t);
      if due == 1 { FirstShown(s); }
      PrependValid(s, t, due);
    }
  }

  lemma PrependValid(s: Slice, t: Slice, due: nat)
    requires s.text != "" && due == if s.conversions != [] && s.conversions[0].offset == s.offset then 1 else 0
    requires t == Slice(s.text[1..], s.conversions[due..], s.offset + Width(s.text[0])) && t.Valid()
    requires due == 1 ==> s.text[0] == s.conversions[0].Shown()
    ensures s.Valid()
  {
    var first := if due == 1 then s.conversions[0].Char() else Raw(s.text[0]);
    assert s.Chars() == [first] + t.Chars();
    assert Shown([first]) == [s.text[0]];
    assert Len([s.text[0]]) == Width(s.text[0]);
    TableConcat([first], t.Chars(), s.offset);
    assert Table([first], s.offset) == s.conversions[..due];
  }

  lemma TailConsistent(s: Slice, t: Slice, due: nat)
    requires s.Consistent() && s.text != ""
    requires due == if s.conversions != [] && s.conversions[0].offset == s.offset then 1 else 0
    requires t == Slice(s.text[1..], s.conversions[due..], s.offset + Width(s.text[0]))
    ensures t.Consistent()
  {
    hide Width, Representative;
    forall i: nat | i < |t.conversions| ensures t.Stored(t.conversions[i]) {
      TailStored(s, t, due, i);
    }
  }

  lemma TailStored(s: Slice, t: Slice, due: nat, i: nat)
    requires s.Consistent() && s.text != ""
    requires due == if s.conversions != [] && s.conversions[0].offset == s.offset then 1 else 0
    requires t == Slice(s.text[1..], s.conversions[due..], s.offset + Width(s.text[0]))
    requires i < |t.conversions|
    ensures t.Stored(t.conversions[i])
  {
    hide Width, Representative;
    var entry := s.conversions[i + due];
    assert s.Stored(entry);
    if due == 0 { LaterThanFirst(s, i); }
    StoredEarlier(s, t, entry);
  }

  lemma LaterThanFirst(s: Slice, i: nat)
    requires s.Consistent() && i < |s.conversions| && s.conversions[0].offset != s.offset
    ensures s.conversions[i].offset != s.offset
  {
    assert s.Stored(s.conversions[0]);
    if i > 0 { assert s.conversions[0].offset < s.conversions[i].offset; }
  }

  lemma FirstShown(s: Slice)
    requires s.Consistent() && s.conversions != [] && s.conversions[0].offset == s.offset
    ensures s.text != "" && s.text[0] == s.conversions[0].Shown()
  {
    var entry := s.conversions[0];
    assert s.Stored(entry);
    var k: nat :| k < |s.text| && entry.offset == s.offset + Len(s.text[..k]) && s.text[k] == entry.Shown();
    OffsetsIncrease(s.text, 0, k);
  }
}
