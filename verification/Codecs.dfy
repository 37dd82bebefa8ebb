/** What each encoding says about bytes, independently of how they arrive (encoding.rs). */
module Codecs {
  import opened Unicode
  import opened Wrappers
  import opened Names
  import opened Lexical
  import opened Sources
  import opened SourceClass

  /** A chosen encoding. Custom encodings add a map and the application's converter. */
  datatype Codec = Codec(encoding: Encoding, values: seq<int>, converter: seq<Byte> -> int, rules: NameRules)
  {
    predicate Valid() { (encoding == SingleByte || encoding == MultiByte) ==> |values| == 256 }
  }

  /** The first character of some bytes. */
  datatype Next =
    | Starved                              // more bytes are needed
    | Malformed
    | Found(unit: Unit, width: nat)
    | Conversion(width: nat)               // the application must convert this sequence

  // -------------------------------------------------------------------- UTF-8

  predicate Continuation(b: Byte) { 0x80 <= b <= 0xBF }

  /** The second byte that table 3-7 of the Unicode Standard allows after a lead byte. */
  predicate SecondByte(lead: Byte, b: Byte) {
    if lead == 0xE0 then 0xA0 <= b <= 0xBF
    else if lead == 0xED then 0x80 <= b <= 0x9F
    else if lead == 0xF0 then 0x90 <= b <= 0xBF
    else if lead == 0xF4 then 0x80 <= b <= 0x8F
    else Continuation(b)
  }

  /** Six payload bits appended to the bits read so far. */
  function Six(high: int, continuation: int): int { high * 64 + (continuation - 0x80) }

  function Utf8Found(v: int, width: nat): Next
    requires 0 <= v < 0xD800 || 0xE000 <= v < 0x11_0000
  {
    Found(Unit(Raw(v as char), width), width)
  }

  /** One step of `str::from_utf8`: an error is reported as soon as a byte cannot continue. */
  function NextUtf8(b: seq<Byte>): (next: Next)
    ensures !next.Conversion?
  {
    if b == [] then Starved
    else if b[0] < 0x80 then Utf8Found(b[0], 1)
    else if !(0xC2 <= b[0] <= 0xF4) then Malformed
    else if |b| < 2 then Starved
    else if !SecondByte(b[0], b[1]) then Malformed
    else if b[0] < 0xE0 then Utf8Found(Six(b[0] as int - 0xC0, b[1]), 2)
    else if |b| < 3 then Starved
    else if !Continuation(b[2]) then Malformed
    else if b[0] < 0xF0 then Utf8Found(Six(Six(b[0] as int - 0xE0, b[1]), b[2]), 3)
    else if |b| < 4 then Starved
    else if !Continuation(b[3]) then Malformed
    else Utf8Found(Six(Six(Six(b[0] as int - 0xF0, b[1]), b[2]), b[3]), 4)
  }

  /** Decoding inverts encoding, whatever follows. */
  lemma NextUtf8Encode(c: char, rest: seq<Byte>)
    ensures NextUtf8(Encode(c) + rest) == Found(Unit(Raw(c), Width(c)), Width(c))
  {
    var v := c as int;
    var b := Encode(c) + rest;
    assert forall i: nat | i < Width(c) :: b[i] == Encode(c)[i];
    SixRebuilds(v);
    SixRebuilds(v / 64);
    SixRebuilds(v / 64 / 64);
    Shift12(v);
    if v >= 0x1_0000 { FourByteEncode(c, b); }
  }

  lemma SixRebuilds(v: int)
    requires 0 <= v
    ensures Six(v / 64, 0x80 + v % 64) == v
  {}

  lemma FourByteEncode(c: char, b: seq<Byte>)
    requires c as int >= 0x1_0000 && |b| >= 4 && forall i: nat | i < 4 :: b[i] == Encode(c)[i]
    ensures NextUtf8(b) == Utf8Found(c as int, 4)
  {
    var v := c as int;
    SixRebuilds(v);
    SixRebuilds(v / 64);
    SixRebuilds(v / 64 / 64);
    Shift12(v);
    assert b[0] as int - 0xF0 == v / 262144;
    assert Six(v / 262144, b[1]) == v / 4096;
    assert Six(v / 4096, b[2]) == v / 64;
    assert Six(v / 64, b[3]) == v;
  }

  lemma SixSplits(high: int, continuation: int)
    requires 0x80 <= continuation < 0xC0
    ensures Six(high, continuation) / 64 == high && 0x80 + Six(high, continuation) % 64 == continuation
  {}

  lemma Shift12(v: int)
    requires 0 <= v
    ensures v / 64 / 64 == v / 4096 && v / 4096 / 64 == v / 262144
  {}

  /** Only encoded characters are found. */
  lemma NextUtf8Sound(b: seq<Byte>)
    requires NextUtf8(b).Found?
    ensures
      var next := NextUtf8(b);
      next.unit.lex.Raw? && next.width == Width(next.unit.lex.c) <= |b| && b[..next.width] == Encode(next.unit.lex.c)
  {
    var v := NextUtf8(b).unit.lex.c as int;
    Shift12(v);
    if b[0] < 0x80 {
    } else if b[0] < 0xE0 {
      SixSplits(b[0] as int - 0xC0, b[1]);
    } else if b[0] < 0xF0 {
      SixSplits(b[0] as int - 0xE0, b[1]);
      SixSplits(Six(b[0] as int - 0xE0, b[1]), b[2]);
    } else {
      FourByteSound(b);
    }
  }

  lemma FourByteSound(b: seq<Byte>)
    requires NextUtf8(b).Found? && b[0] >= 0xF0
    ensures b[..4] == Encode(NextUtf8(b).unit.lex.c) && NextUtf8(b).width == 4 == Width(NextUtf8(b).unit.lex.c)
  {
    var v := NextUtf8(b).unit.lex.c as int;
    var one := b[0] as int - 0xF0;
    var two := Six(one, b[1]);
    var three := Six(two, b[2]);
    SixSplits(one, b[1]);
    SixSplits(two, b[2]);
    SixSplits(three, b[3]);
    Shift12(v);
    assert v == Six(three, b[3]) && v / 64 == three && v / 4096 == two && v / 262144 == one;
  }

  // ------------------------------------------------------------------- UTF-16

  function CodeUnit(little: bool, b: seq<Byte>): (u: int)
    requires |b| >= 2
    ensures 0 <= u < 0x1_0000
  {
    var low: int, high: int := if little then b[0] else b[1], if little then b[1] else b[0];
    256 * high + low
  }

  function NextUtf16(little: bool, b: seq<Byte>): (next: Next)
    ensures !next.Conversion?
  {
    if |b| < 2 then Starved
    else
      var first := CodeUnit(little, b);
      if 0xD800 <= first <= 0xDBFF then
        if |b| < 4 then Starved
        else
          var second := CodeUnit(little, b[2..]);
          if !(0xDC00 <= second <= 0xDFFF) then Malformed
          else Found(Unit(Raw((0x1_0000 + (first - 0xD800) * 1024 + (second - 0xDC00)) as char), 4), 4)
      else if 0xDC00 <= first <= 0xDFFF then Malformed
      else Found(Unit(Raw(first as char), 2), 2)
  }

  function UnitBytes(little: bool, u: int): seq<Byte>
    requires 0 <= u < 0x1_0000
  {
    if little then [u % 256, u / 256] else [u / 256, u % 256]
  }

  /** Section 2.1 of RFC 2781. */
  function EncodeUtf16(little: bool, c: char): (b: seq<Byte>)
    ensures |b| == 2 * Utf16Units(c)
  {
    var v := c as int;
    if v < 0x1_0000 then UnitBytes(little, v)
    else UnitBytes(little, 0xD800 + (v - 0x1_0000) / 1024) + UnitBytes(little, 0xDC00 + (v - 0x1_0000) % 1024)
  }

  lemma NextUtf16Encode(little: bool, c: char, rest: seq<Byte>)
    ensures NextUtf16(little, EncodeUtf16(little, c) + rest)
         == Found(Unit(Raw(c), 2 * Utf16Units(c)), 2 * Utf16Units(c))
  {
    var v := c as int;
    var b := EncodeUtf16(little, c) + rest;
    assert forall i: nat | i < |EncodeUtf16(little, c)| :: b[i] == EncodeUtf16(little, c)[i];
    if v < 0x1_0000 {
      CodeUnitOf(little, v, b);
    } else {
      CodeUnitOf(little, 0xD800 + (v - 0x1_0000) / 1024, b);
      CodeUnitOf(little, 0xDC00 + (v - 0x1_0000) % 1024, b[2..]);
    }
  }

  lemma CodeUnitOf(little: bool, u: int, b: seq<Byte>)
    requires 0 <= u < 0x1_0000 && |b| >= 2 && b[0] == UnitBytes(little, u)[0] && b[1] == UnitBytes(little, u)[1]
    ensures CodeUnit(little, b) == u
  {}

  // --------------------------------------------------------- one byte and maps

  /** `char::from_u32`. */
  function FromU32(v: int): Option<char> {
    if 0 <= v < 0xD800 || 0xE000 <= v < 0x11_0000 then Some(v as char) else None
  }

  /** `custom_public_byte`: which original bytes a public identifier may hold. */
  predicate PublicByte(values: seq<int>, b: Byte, rules: NameRules)
    requires |values| == 256
  {
    || PublicLiteral(b as char)
    || (b < 0x80 && values[b] > 0x7F && FromU32(values[b]).Some? && rules.IsNameChar(FromU32(values[b]).value))
  }

  predicate PublicLiteral(c: char) {
    'a' <= c <= 'z' || 'A' <= c <= 'Z' || '0' <= c <= '9' || c in " \r\n-'()+,./:=?;!*#@$_%"
  }

  /** A sequence of at most four bytes in the fixed array a conversion keeps. */
  function Padded(b: seq<Byte>): (four: seq<Byte>)
    requires |b| <= 4
    ensures |four| == 4 && four[..|b|] == b
  {
    b + [0, 0, 0, 0][..4 - |b|]
  }

  function NextCustom(codec: Codec, b: seq<Byte>): Next
    requires |codec.values| == 256
  {
    if b == [] then Starved
    else
      var value := codec.values[b[0]];
      if -4 <= value <= -2 then
        if |b| >= -value then Next.Conversion(-value) else Starved
      else
        match FromU32(value)
        case None => Malformed
        case Some(c) =>
          Found(MappedUnit(codec.values, codec.rules, c, b[0]), 1)
  }

  /** A character mapped from one byte is converted unless it is that byte. */
  function MappedUnit(values: seq<int>, rules: NameRules, c: char, b: Byte): Unit
    requires |values| == 256
  {
    CustomUnit(c, 1, if c as int != b then Some((Padded([b]), PublicByte(values, b, rules))) else None)
  }

  /** What the application's answer for a sequence adds, if it is an XML character of the BMP. */
  function ConvertedUnit(codec: Codec, sequence: seq<Byte>): (unit: Option<Unit>)
    requires |codec.values| == 256 && 1 <= |sequence| <= 4
    ensures unit.Some? ==> unit.value.width == |sequence|
  {
    match FromU32(codec.converter(sequence))
    case Some(c) =>
      if codec.converter(sequence) <= 0xFFFF && IsXmlChar(c) then
        Some(CustomUnit(c, |sequence|, Some((Padded(sequence),
          forall i: nat | i < |sequence| :: PublicByte(codec.values, sequence[i], codec.rules)))))
      else None
    case None => None
  }

  // ------------------------------------------------------------ whole decoding

  function NextOf(codec: Codec, b: seq<Byte>): Next
    requires codec.Valid()
  {
    match codec.encoding
    case Utf8Encoding => NextUtf8(b)
    case Utf16Le => NextUtf16(true, b)
    case Utf16Be => NextUtf16(false, b)
    case Latin1 => if b == [] then Starved else Found(Unit(Raw(b[0] as char), 1), 1)
    case Ascii =>
      if b == [] then Starved else if b[0] >= 0x80 then Malformed else Found(Unit(Raw(b[0] as char), 1), 1)
    case SingleByte => NextCustom(codec, b)
    case MultiByte => NextCustom(codec, b)
  }

  /** A step never looks past the bytes it takes, and takes at least one. */
  lemma NextProgress(codec: Codec, b: seq<Byte>)
    requires codec.Valid()
    ensures
      var next := NextOf(codec, b);
      && (next.Found? ==> 1 <= next.width <= |b| && next.unit.width == next.width)
      && (next.Conversion? ==> 2 <= next.width <= 4 && next.width <= |b| && |codec.values| == 256)
  {}

  /** Later bytes never change a decision already made. */
  lemma NextStable(codec: Codec, a: seq<Byte>, more: seq<Byte>)
    requires codec.Valid() && NextOf(codec, a) != Starved
    ensures NextOf(codec, a + more) == NextOf(codec, a)
  {
    var b := a + more;
    assert a != [] && |b| >= |a|;
    assert forall i: nat | i < |a| :: b[i] == a[i];
    if |a| >= 4 { assert b[2..][0] == a[2..][0] && b[2..][1] == a[2..][1]; }
  }

  /** The units of some bytes, the bytes left over, and whether decoding failed on them. */
  datatype Decoded = Decoded(units: seq<Unit>, rest: seq<Byte>, failed: bool)
  {
    function After(before: seq<Unit>): Decoded { Decoded(before + units, rest, failed) }
  }

  /** The whole-input meaning of a codec, with every conversion answered by the application. */
  function Decode(codec: Codec, b: seq<Byte>): Decoded
    requires codec.Valid()
    decreases |b|
  {
    NextProgress(codec, b);
    match NextOf(codec, b)
    case Starved => Decoded([], b, false)
    case Malformed => Decoded([], b, true)
    case Found(unit, width) => Decode(codec, b[width..]).After([unit])
    case Conversion(width) =>
      match ConvertedUnit(codec, b[..width])
      case None => Decoded([], b, true)
      case Some(unit) => Decode(codec, b[width..]).After([unit])
  }

  /** Decoding a prefix first, then what it left with the remaining bytes, gives the same result. */
  lemma {:induction false} DecodeConcat(codec: Codec, a: seq<Byte>, more: seq<Byte>)
    requires codec.Valid()
    ensures
      var first := Decode(codec, a);
      if first.failed then Decode(codec, a + more) == Decoded(first.units, first.rest + more, true)
      else Decode(codec, a + more) == Decode(codec, first.rest + more).After(first.units)
    decreases |a|
  {
    hide NextOf, ConvertedUnit;
    NextProgress(codec, a);
    var next := NextOf(codec, a);
    if next == Starved {
      assert [] + Decode(codec, a + more).units == Decode(codec, a + more).units;
    } else {
      NextStable(codec, a, more);
      if next.Found? || next.Conversion? {
        assert (a + more)[..next.width] == a[..next.width];
        assert (a + more)[next.width..] == a[next.width..] + more;
        DecodeConcat(codec, a[next.width..], more);
        DecodeUnfold(codec, a, more, next.width);
      }
    }
  }

  lemma DecodeUnfold(codec: Codec, a: seq<Byte>, more: seq<Byte>, width: nat)
    requires codec.Valid() && (NextOf(codec, a).Found? || NextOf(codec, a).Conversion?) && width == NextOf(codec, a).width
    requires width <= |a|
    requires NextOf(codec, a + more) == NextOf(codec, a) && (a + more)[..width] == a[..width]
    requires (a + more)[width..] == a[width..] + more
    requires
      var first := Decode(codec, a[width..]);
      if first.failed then Decode(codec, a[width..] + more) == Decoded(first.units, first.rest + more, true)
      else Decode(codec, a[width..] + more) == Decode(codec, first.rest + more).After(first.units)
    ensures
      var first := Decode(codec, a);
      if first.failed then Decode(codec, a + more) == Decoded(first.units, first.rest + more, true)
      else Decode(codec, a + more) == Decode(codec, first.rest + more).After(first.units)
  {
    hide NextOf, ConvertedUnit;
    NextProgress(codec, a);
    var tail := Decode(codec, a[width..]);
    var again := Decode(codec, tail.rest + more);
    var whole := Decode(codec, a[width..] + more);
    if NextOf(codec, a).Found? {
      var unit := NextOf(codec, a).unit;
      assert Decode(codec, a) == tail.After([unit]) && Decode(codec, a + more) == whole.After([unit]);
      Associative([unit], tail.units, again.units);
    } else if ConvertedUnit(codec, a[..width]).Some? {
      var unit := ConvertedUnit(codec, a[..width]).value;
      assert Decode(codec, a) == tail.After([unit]) && Decode(codec, a + more) == whole.After([unit]);
      Associative([unit], tail.units, again.units);
    }
  }

  // ----------------------------------------------------------------- round trips

  /** Section 4 of RFC 3629: decoding gives back any encoded text. */
  lemma {:induction false} Utf8RoundTrip(codec: Codec, s: string)
    requires codec.encoding == Utf8Encoding
    ensures Decode(codec, Utf8(s)) == Decoded(FixedUnits(Utf8Encoding, s), [], false)
  {
    hide NextUtf8, Encode, Width;
    if s == "" {
      assert NextUtf8([]) == Starved by { NextEmpty(); }
      assert FixedUnits(Utf8Encoding, s) == [];
    } else {
      var c := s[0];
      NextUtf8Encode(c, Utf8(s[1..]));
      NextProgress(codec, Utf8(s));
      assert Utf8(s)[Width(c)..] == Utf8(s[1..]);
      Utf8RoundTrip(codec, s[1..]);
      assert FixedUnits(Utf8Encoding, s) == [Unit(Raw(c), Width(c))] + FixedUnits(Utf8Encoding, s[1..]);
    }
  }

  lemma NextEmpty()
    ensures NextUtf8([]) == Starved
  {}

  function EncodeUtf16All(little: bool, s: string): seq<Byte> {
    if s == "" then [] else EncodeUtf16(little, s[0]) + EncodeUtf16All(little, s[1..])
  }

  /** Sections 2.1 and 2.2 of RFC 2781, in both byte orders. */
  lemma {:induction false} Utf16RoundTrip(codec: Codec, s: string)
    requires codec.encoding == Utf16Le || codec.encoding == Utf16Be
    ensures Decode(codec, EncodeUtf16All(codec.encoding == Utf16Le, s))
         == Decoded(FixedUnits(codec.encoding, s), [], false)
  {
    hide NextUtf16, EncodeUtf16;
    var little := codec.encoding == Utf16Le;
    if s == "" {
      assert NextUtf16(little, []) == Starved by { NextEmpty16(little); }
      assert FixedUnits(codec.encoding, s) == [];
    } else {
      var c := s[0];
      var b := EncodeUtf16All(little, s);
      NextUtf16Encode(little, c, EncodeUtf16All(little, s[1..]));
      NextProgress(codec, b);
      assert b[2 * Utf16Units(c)..] == EncodeUtf16All(little, s[1..]);
      Utf16RoundTrip(codec, s[1..]);
      assert FixedUnits(codec.encoding, s) == [Unit(Raw(c), 2 * Utf16Units(c))] + FixedUnits(codec.encoding, s[1..]);
    }
  }

  lemma NextEmpty16(little: bool)
    ensures NextUtf16(little, []) == Starved
  {}
}
