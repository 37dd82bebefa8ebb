/** Decoded input with its cursor, compaction and original-byte coordinates (encoding.rs). */
module Sources {
  import opened Unicode
  import opened Positions
  import opened Lexical

  datatype Encoding = Utf8Encoding | Utf16Le | Utf16Be | Latin1 | Ascii | SingleByte | MultiByte

  /** One stored character and how many original bytes it came from. */
  datatype Unit = Unit(lex: LexChar, width: nat)
  {
    function Shown(): char { lex.Shown() }
  }

  /** A byte offset in the original input with its line and column. */
  datatype Place = Place(byteIndex: nat, at: Coordinates)

  datatype Position = Position(byteIndex: nat, line: nat, column: nat, byteCount: nat)

  function AsPosition(p: Place, count: nat): Position {
    Position(p.byteIndex, p.at.line, p.at.column, count)
  }

  // --------------------------------------------------- abstract coordinates

  function Characters(units: seq<Unit>): (s: string)
    ensures |s| == |units|
  {
    seq(|units|, i requires 0 <= i < |units| => units[i].Shown())
  }

  /** The lexical characters of a run of units. */
  function Lex(units: seq<Unit>): (lex: seq<LexChar>)
    ensures |lex| == |units|
  {
    seq(|units|, i requires 0 <= i < |units| => units[i].lex)
  }

  /** The original bytes of a run of characters. */
  function RawSum(units: seq<Unit>): nat {
    if units == [] then 0 else units[0].width + RawSum(units[1..])
  }

  lemma {:induction false} RawSumConcat(a: seq<Unit>, b: seq<Unit>)
    ensures RawSum(a + b) == RawSum(a) + RawSum(b)
  {
    if a == [] {
      assert a + b == b;
    } else {
      assert (a + b)[1..] == a[1..] + b;
      RawSumConcat(a[1..], b);
    }
  }

  /** Where a text that starts at `start` ends. */
  function After(start: Place, units: seq<Unit>): Place {
    Place(start.byteIndex + RawSum(units), Advance(start.at, Characters(units)))
  }

  lemma AfterConcat(start: Place, a: seq<Unit>, b: seq<Unit>)
    ensures After(start, a + b) == After(After(start, a), b)
  {
    RawSumConcat(a, b);
    AdvanceConcat(start.at, Characters(a), Characters(b));
    assert Characters(a + b) == Characters(a) + Characters(b);
  }

  // ------------------------------------------------------------- raw widths

  /** `char::len_utf16`. */
  function Utf16Units(c: char): nat { if c as int < 0x10000 then 1 else 2 }

  /** Original bytes per character for the encodings that do not keep a width table. */
  function EncodedWidth(encoding: Encoding, c: char): nat {
    match encoding
    case Utf8Encoding => Width(c)
    case Ascii => Width(c)
    case Latin1 => 1
    case SingleByte => 1
    case Utf16Le => 2 * Utf16Units(c)
    case Utf16Be => 2 * Utf16Units(c)
    case MultiByte => 0
  }

  function Zeros(n: nat): (z: seq<nat>)
    ensures |z| == n && forall i: nat | i < n :: z[i] == 0
  {
    if n == 0 then [] else [0] + Zeros(n - 1)
  }

  /** One entry per stored byte: the original width at a character's first byte, then zeros. */
  function RawWidths(units: seq<Unit>): (widths: seq<nat>)
    ensures |widths| == Len(Characters(units))
  {
    if units == [] then []
    else
      assert Characters(units)[1..] == Characters(units[1..]);
      [units[0].width] + Zeros(Width(units[0].Shown()) - 1) + RawWidths(units[1..])
  }

  function Sum(widths: seq<nat>): nat {
    if widths == [] then 0 else widths[0] + Sum(widths[1..])
  }

  lemma {:induction false} SumConcat(a: seq<nat>, b: seq<nat>)
    ensures Sum(a + b) == Sum(a) + Sum(b)
  {
    if a == [] {
      assert a + b == b;
    } else {
      assert (a + b)[1..] == a[1..] + b;
      SumConcat(a[1..], b);
    }
  }

  lemma {:induction false} SumZeros(n: nat)
    ensures Sum(Zeros(n)) == 0
  {
    if n > 0 { SumZeros(n - 1); }
  }

  /** The width table sums to the original length of the text. */
  lemma {:induction false} RawWidthsSum(units: seq<Unit>)
    ensures Sum(RawWidths(units)) == RawSum(units)
  {
    if units != [] {
      var zeros := Zeros(Width(units[0].Shown()) - 1);
      RawWidthsSum(units[1..]);
      SumConcat([units[0].width] + zeros, RawWidths(units[1..]));
      SumConcat([units[0].width], zeros);
      SumZeros(|zeros|);
    }
  }

  lemma {:induction false} RawWidthsConcat(a: seq<Unit>, b: seq<Unit>)
    ensures RawWidths(a + b) == RawWidths(a) + RawWidths(b)
  {
    hide Width, Zeros;
    if a == [] {
      assert a + b == b;
    } else {
      assert (a + b)[1..] == a[1..] + b;
      RawWidthsConcat(a[1..], b);
      Associative([a[0].width] + Zeros(Width(a[0].Shown()) - 1), RawWidths(a[1..]), RawWidths(b));
    }
  }

  /** The table is nonzero exactly at character starts. */
  lemma {:induction false} WidthsMarkStarts(units: seq<Unit>, offset: nat)
    requires (forall u | u in units :: u.width > 0) && offset < Len(Characters(units))
    ensures RawWidths(units)[offset] != 0 <==> IsBoundary(Characters(units), offset)
  {
    var text := Characters(units);
    var w := Width(text[0]);
    assert text[1..] == Characters(units[1..]);
    assert units[0] in units;
    if offset < w {
      if offset == 0 { assert text[..0] == ""; }
      forall k: nat | k <= |text| && k > 0 ensures Len(text[..k]) >= w {
        OffsetsIncrease(text, 1, k);
        assert text[..1] == [text[0]];
      }
      assert RawWidths(units)[offset] == ([units[0].width] + Zeros(w - 1))[offset];
    } else {
      WidthsMarkStarts(units[1..], offset - w);
      assert RawWidths(units)[offset] == RawWidths(units[1..])[offset - w];
      BoundaryTail(text, offset);
    }
  }

  lemma BoundaryTail(text: string, offset: nat)
    requires text != "" && offset >= Width(text[0])
    ensures IsBoundary(text, offset) <==> IsBoundary(text[1..], offset - Width(text[0]))
  {
    if IsBoundary(text, offset) {
      var k: nat :| k <= |text| && Len(text[..k]) == offset;
      assert text[..k][1..] == text[1..][..k - 1];
    }
    if IsBoundary(text[1..], offset - Width(text[0])) {
      var k: nat :| k <= |text[1..]| && Len(text[1..][..k]) == offset - Width(text[0]);
      assert text[..k + 1][1..] == text[1..][..k];
    }
  }

  /** A window of the width table covers exactly the characters of that window. */
  lemma RawWidthsSlice(units: seq<Unit>, i: nat, j: nat)
    requires i <= j <= |units|
    ensures
      var from, to := Len(Characters(units)[..i]), Len(Characters(units)[..j]);
      from <= to <= |RawWidths(units)| && RawWidths(units)[from..to] == RawWidths(units[i..j])
  {
    hide RawWidths;
    assert Characters(units)[..i] == Characters(units[..i]);
    assert Characters(units)[..j] == Characters(units[..j]);
    assert units[..j] == units[..i] + units[i..j];
    assert units == units[..j] + units[j..];
    RawWidthsConcat(units[..i], units[i..j]);
    RawWidthsConcat(units[..j], units[j..]);
  }

  /** Fixed encodings: the width of every unit follows from its character. */
  predicate Fixed(encoding: Encoding, units: seq<Unit>) {
    forall u | u in units :: u.width == EncodedWidth(encoding, u.Shown())
  }

  lemma {:induction false} FixedUtf8(encoding: Encoding, units: seq<Unit>)
    requires Fixed(encoding, units) && (encoding == Utf8Encoding || encoding == Ascii)
    ensures RawSum(units) == Len(Characters(units))
  {
    if units != [] {
      assert units[0] in units;
      assert Characters(units)[1..] == Characters(units[1..]);
      FixedUtf8(encoding, units[1..]);
    }
  }

  lemma {:induction false} FixedSingle(encoding: Encoding, units: seq<Unit>)
    requires Fixed(encoding, units) && (encoding == Latin1 || encoding == SingleByte)
    ensures RawSum(units) == |units|
  {
    if units != [] {
      assert units[0] in units;
      FixedSingle(encoding, units[1..]);
    }
  }

  function Utf16Length(text: string): nat {
    if text == "" then 0 else Utf16Units(text[0]) + Utf16Length(text[1..])
  }

  lemma {:induction false} FixedUtf16(encoding: Encoding, units: seq<Unit>)
    requires Fixed(encoding, units) && (encoding == Utf16Le || encoding == Utf16Be)
    ensures RawSum(units) == 2 * Utf16Length(Characters(units))
  {
    if units != [] {
      assert units[0] in units;
      assert Characters(units)[1..] == Characters(units[1..]);
      FixedUtf16(encoding, units[1..]);
    }
  }

  /** `Encoding::raw_len`. */
  function EncodingRawLen(encoding: Encoding, text: string): nat {
    match encoding
    case Utf8Encoding => Len(text)
    case Ascii => Len(text)
    case Latin1 => |text|
    case SingleByte => |text|
    case Utf16Le => 2 * Utf16Length(text)
    case Utf16Be => 2 * Utf16Length(text)
    case MultiByte => 0
  }

  lemma EncodingRawSum(encoding: Encoding, units: seq<Unit>)
    requires Fixed(encoding, units) && encoding != MultiByte
    ensures EncodingRawLen(encoding, Characters(units)) == RawSum(units)
  {
    match encoding
    case Utf8Encoding => FixedUtf8(encoding, units);
    case Ascii => FixedUtf8(encoding, units);
    case Latin1 => FixedSingle(encoding, units);
    case SingleByte => FixedSingle(encoding, units);
    case Utf16Le => FixedUtf16(encoding, units);
    case Utf16Be => FixedUtf16(encoding, units);
    case MultiByte =>
  }
}
