/** Which bytes spell which characters, said without decoding: every encoding accepts exactly its spellings,
    and input that stops inside one is told from input that is wrong (encoding.rs). */
module CodecSpellings {
  import opened Unicode
  import opened Wrappers
  import opened Names
  import opened Sources
  import opened Codecs
  import opened Decoding

  // ---------------------------------------------------------------- one character

  /** The bytes of one character. A map gives a byte its character, or the length of a sequence that the
      application converts. */
  predicate IsSpelling(codec: Codec, piece: seq<Byte>, u: Unit)
    requires codec.Valid()
  {
    u.width == |piece| &&
    match codec.encoding
    case Utf8Encoding => u.lex.Raw? && piece == Encode(u.lex.c)
    case Utf16Le => u.lex.Raw? && piece == EncodeUtf16(true, u.lex.c)
    case Utf16Be => u.lex.Raw? && piece == EncodeUtf16(false, u.lex.c)
    case Latin1 => u.lex.Raw? && |piece| == 1 && piece[0] == u.lex.c as int
    case Ascii => u.lex.Raw? && |piece| == 1 && piece[0] == u.lex.c as int < 0x80
    case SingleByte => IsMapped(codec, piece, u)
    case MultiByte => IsMapped(codec, piece, u)
  }

  /** A converted character keeps its bytes, and whether all of them may stand in a public identifier. */
  predicate IsMapped(codec: Codec, piece: seq<Byte>, u: Unit)
    requires |codec.values| == 256
  {
    && 1 <= |piece| <= 4
    && (u.lex.Converted? ==>
         && u.lex.length == |piece| && u.lex.bytes == piece + [0, 0, 0][..4 - |piece|]
         && u.lex.publicValid == forall i: nat | i < |piece| :: StandsPublic(codec, piece[i]))
    && if |piece| == 1 then
         codec.values[piece[0]] == u.lex.Scalar() as int && (u.lex.Raw? <==> codec.values[piece[0]] == piece[0])
       else
         && codec.values[piece[0]] == -|piece| && u.lex.Converted?
         && codec.converter(piece) == u.lex.Scalar() as int <= 0xFFFF && IsXmlChar(u.lex.Scalar())
  }

  /** Production [13] of XML 1.0, and ASCII bytes that a map makes a name character beyond ASCII. */
  predicate StandsPublic(codec: Codec, b: Byte)
    requires |codec.values| == 256
  {
    var c, v := b as char, codec.values[b];
    || 'a' <= c <= 'z' || 'A' <= c <= 'Z' || '0' <= c <= '9' || c in " \r\n" || c in "-'()+,./:=?;!*#@$_%"
    || (b < 0x80 && (0x80 <= v < 0xD800 || 0xE000 <= v < 0x11_0000) && codec.rules.IsNameChar(v as char))
  }

  lemma PublicExactly(codec: Codec, b: Byte)
    requires |codec.values| == 256
    ensures PublicByte(codec.values, b, codec.rules) <==> StandsPublic(codec, b)
  {
    hide NameRules.IsNameChar;
  }

  lemma AllPublic(codec: Codec, piece: seq<Byte>)
    requires |codec.values| == 256
    ensures (forall i: nat | i < |piece| :: PublicByte(codec.values, piece[i], codec.rules))
       <==> forall i: nat | i < |piece| :: StandsPublic(codec, piece[i])
  {
    hide PublicByte, StandsPublic;
    forall i: nat | i < |piece| ensures PublicByte(codec.values, piece[i], codec.rules) <==> StandsPublic(codec, piece[i]) {
      PublicExactly(codec, piece[i]);
    }
  }

  /** The first of several bytes that no character ends in yet. */
  ghost predicate IsTruncated(codec: Codec, rest: seq<Byte>)
    requires codec.Valid()
  {
    rest != [] &&
    match codec.encoding
    case Utf8Encoding => exists c: char :: |rest| < Width(c) && rest == Encode(c)[..|rest|]
    case Utf16Le => IsTruncated16(true, rest)
    case Utf16Be => IsTruncated16(false, rest)
    case Latin1 => false
    case Ascii => false
    case SingleByte => IsCutSequence(codec.values, rest)
    case MultiByte => IsCutSequence(codec.values, rest)
  }

  /** Half a code unit, or the first surrogate without all of its second. */
  ghost predicate IsTruncated16(little: bool, rest: seq<Byte>) {
    || |rest| == 1
    || (2 <= |rest| <= 3 && exists c: char :: c as int >= 0x1_0000 && rest[..2] == EncodeUtf16(little, c)[..2])
  }

  predicate IsCutSequence(values: seq<int>, rest: seq<Byte>)
    requires |values| == 256
  {
    rest != [] && -4 <= values[rest[0]] <= -2 && |rest| < -values[rest[0]]
  }

  // ----------------------------------------------------------------- and the steps

  lemma Utf8Truncated(rest: seq<Byte>)
    requires rest != []
    ensures NextUtf8(rest) == Starved <==> exists c: char :: |rest| < Width(c) && rest == Encode(c)[..|rest|]
  {
    if NextUtf8(rest) == Starved {
      var more := Completion(rest);
      NextUtf8Sound(rest + more);
      var c := NextUtf8(rest + more).unit.lex.c;
      assert (rest + more)[..|rest|] == rest && Encode(c)[..|rest|] == rest;
    }
    if c: char :| |rest| < Width(c) && rest == Encode(c)[..|rest|] {
      NextUtf8Encode(c, []);
      assert Encode(c) + [] == Encode(c) == rest + Encode(c)[|rest|..];
      Utf8Stable(rest, Encode(c)[|rest|..]);
    }
  }

  lemma Utf8Stable(rest: seq<Byte>, more: seq<Byte>)
    ensures NextUtf8(rest) != Starved ==> NextUtf8(rest + more) == NextUtf8(rest)
    ensures NextUtf8(rest).Found? ==> NextUtf8(rest).width <= |rest|
  {
    var codec := Codec(Utf8Encoding, [], _ => 0, FifthEdition);
    NextProgress(codec, rest);
    if NextUtf8(rest) != Starved { NextStable(codec, rest, more); }
  }

  /** Bytes that complete a character. */
  lemma Completion(rest: seq<Byte>) returns (more: seq<Byte>)
    requires rest != [] && NextUtf8(rest) == Starved
    ensures more != [] && NextUtf8(rest + more).Found? && NextUtf8(rest + more).width == |rest + more|
  {
    var second := if rest[0] == 0xE0 then 0xA0 else if rest[0] == 0xF0 then 0x90 else 0x80;
    var length := if rest[0] < 0xE0 then 2 else if rest[0] < 0xF0 then 3 else 4;
    more := [second, 0x80, 0x80][|rest| - 1..length - 1];
    var all := rest + more;
    assert forall i: nat | i < |rest| :: all[i] == rest[i];
    assert forall i: nat | |rest| <= i < |all| :: all[i] == more[i - |rest|];
  }

  lemma Utf16Truncated(little: bool, rest: seq<Byte>)
    requires rest != []
    ensures NextUtf16(little, rest) == Starved <==> IsTruncated16(little, rest)
  {
    hide EncodeUtf16;
    if 2 <= |rest| <= 3 {
      var first := CodeUnit(little, rest);
      if 0xD800 <= first <= 0xDBFF {
        UnitBack(little, rest);
        FirstSurrogate(little, (0x1_0000 + (first - 0xD800) * 1024) as char);
      }
      if c: char :| c as int >= 0x1_0000 && rest[..2] == EncodeUtf16(little, c)[..2] {
        FirstSurrogate(little, c);
        assert rest[0] == rest[..2][0] && rest[1] == rest[..2][1];
        CodeUnitOf(little, 0xD800 + (c as int - 0x1_0000) / 1024, rest);
      }
    }
  }

  lemma FirstSurrogate(little: bool, c: char)
    requires c as int >= 0x1_0000
    ensures 0xD800 <= 0xD800 + (c as int - 0x1_0000) / 1024 <= 0xDBFF
    ensures EncodeUtf16(little, c)[..2] == UnitBytes(little, 0xD800 + (c as int - 0x1_0000) / 1024)
  {}

  lemma Utf16Sound(little: bool, b: seq<Byte>)
    requires NextUtf16(little, b).Found?
    ensures
      var next := NextUtf16(little, b);
      next.unit.lex.Raw? && next.width <= |b| && b[..next.width] == EncodeUtf16(little, next.unit.lex.c)
  {
    var first := CodeUnit(little, b);
    UnitBack(little, b);
    if 0xD800 <= first <= 0xDBFF {
      UnitBack(little, b[2..]);
      var second := CodeUnit(little, b[2..]);
      var v := 0x1_0000 + (first - 0xD800) * 1024 + (second - 0xDC00);
      Halves(first - 0xD800, second - 0xDC00);
      assert b[..4] == b[..2] + b[2..][..2];
    }
  }

  lemma Halves(high: int, low: int)
    requires 0 <= high < 1024 && 0 <= low < 1024
    ensures (high * 1024 + low) / 1024 == high && (high * 1024 + low) % 1024 == low
  {}

  lemma UnitBack(little: bool, b: seq<Byte>)
    requires |b| >= 2
    ensures b[..2] == UnitBytes(little, CodeUnit(little, b))
  {}

  /** A step finds a spelling, or stops inside one, or at bytes that begin none. */
  lemma NextExactly(codec: Codec, b: seq<Byte>)
    requires codec.Valid()
    ensures
      match NextOf(codec, b)
      case Starved => b == [] || IsTruncated(codec, b)
      case Malformed => b != [] && !IsTruncated(codec, b)
      case Found(u, width) => width <= |b| && IsSpelling(codec, b[..width], u)
      case Conversion(width) =>
        && 2 <= width <= 4 && width <= |b| && !IsTruncated(codec, b)
        && |codec.values| == 256 && (codec.encoding == SingleByte || codec.encoding == MultiByte)
        && codec.values[b[0]] + width == 0
  {
    hide NextUtf8, NextUtf16, Encode, EncodeUtf16, Width, PublicByte;
    match codec.encoding
    case Utf8Encoding =>
      if b != [] { Utf8Truncated(b); }
      if NextUtf8(b).Found? { NextUtf8Sound(b); NextProgress(codec, b); }
      Nothing(codec);
    case Utf16Le =>
      if b != [] { Utf16Truncated(true, b); }
      if NextUtf16(true, b).Found? { Utf16Sound(true, b); NextProgress(codec, b); }
      Nothing(codec);
    case Utf16Be =>
      if b != [] { Utf16Truncated(false, b); }
      if NextUtf16(false, b).Found? { Utf16Sound(false, b); NextProgress(codec, b); }
      Nothing(codec);
    case Latin1 => if b != [] { assert b[..1] == [b[0]]; }
    case Ascii => if b != [] { assert b[..1] == [b[0]]; }
    case SingleByte => MappedNext(codec, b);
    case MultiByte => MappedNext(codec, b);
  }

  lemma Nothing(codec: Codec)
    requires codec.Valid()
    ensures !NextUtf8([]).Malformed? && !NextUtf16(true, []).Malformed? && !NextUtf16(false, []).Malformed?
  {}

  lemma MappedNext(codec: Codec, b: seq<Byte>)
    requires |codec.values| == 256
    ensures
      match NextCustom(codec, b)
      case Starved => b == [] || IsCutSequence(codec.values, b)
      case Malformed => b != [] && !IsCutSequence(codec.values, b)
      case Found(u, width) => width == 1 <= |b| && u.width == 1 && IsMapped(codec, b[..1], u)
      case Conversion(width) =>
        2 <= width <= 4 && width <= |b| && !IsCutSequence(codec.values, b) && codec.values[b[0]] + width == 0
  {
    hide PublicByte, StandsPublic;
    if b != [] {
      assert b[..1] == [b[0]];
      PublicExactly(codec, b[0]);
    }
  }

  // ------------------------------------------------------------------ whole inputs

  /** The bytes of a run of characters. */
  predicate Encodes(codec: Codec, b: seq<Byte>, units: seq<Unit>)
    requires codec.Valid()
    decreases |units|
  {
    if units == [] then b == []
    else
      var n := units[0].width;
      n <= |b| && IsSpelling(codec, b[..n], units[0]) && Encodes(codec, b[n..], units[1..])
  }

  /** No character begins here. */
  ghost predicate BeginsNothing(codec: Codec, rest: seq<Byte>)
    requires codec.Valid()
  {
    forall n: nat, u: Unit | n <= |rest| :: !IsSpelling(codec, rest[..n], u)
  }

  /** A spelling is read as its character, whatever follows. */
  lemma SpellingNext(codec: Codec, piece: seq<Byte>, u: Unit, more: seq<Byte>)
    requires codec.Valid() && IsSpelling(codec, piece, u)
    ensures piece != [] && u.width == |piece|
    ensures NextOf(codec, piece + more) == Found(u, |piece|)
         || (NextOf(codec, piece + more) == Next.Conversion(|piece|) && |codec.values| == 256 && 1 <= |piece| <= 4
             && ConvertedUnit(codec, piece) == Some(u))
  {
    hide NextUtf8, NextUtf16, Encode, EncodeUtf16, Width, PublicByte, IsXmlChar;
    match codec.encoding
    case Utf8Encoding => NextUtf8Encode(u.lex.c, more);
    case Utf16Le => NextUtf16Encode(true, u.lex.c, more);
    case Utf16Be => NextUtf16Encode(false, u.lex.c, more);
    case Latin1 => assert (piece + more)[0] == piece[0];
    case Ascii => assert (piece + more)[0] == piece[0];
    case SingleByte => MappedSpelling(codec, piece, u, more);
    case MultiByte => MappedSpelling(codec, piece, u, more);
  }

  lemma MappedSpelling(codec: Codec, piece: seq<Byte>, u: Unit, more: seq<Byte>)
    requires |codec.values| == 256 && IsMapped(codec, piece, u) && u.width == |piece|
    ensures NextCustom(codec, piece + more) == Found(u, |piece|)
         || (NextCustom(codec, piece + more) == Next.Conversion(|piece|) && ConvertedUnit(codec, piece) == Some(u))
  {
    hide PublicByte, StandsPublic, IsXmlChar;
    AllPublic(codec, piece);
    assert (piece + more)[0] == piece[0];
    assert Padded(piece) == piece + [0, 0, 0][..4 - |piece|];
    if |piece| == 1 {
      assert piece == [piece[0]];
      assert FromU32(codec.values[piece[0]]) == Some(u.lex.Scalar());
      PublicExactly(codec, piece[0]);
      assert u.lex.Converted? ==> (u.lex.publicValid <==> PublicByte(codec.values, piece[0], codec.rules));
    } else {
      assert FromU32(codec.converter(piece)) == Some(u.lex.Scalar());
    }
  }

  lemma ConvertedSpelling(codec: Codec, sequence: seq<Byte>)
    requires |codec.values| == 256 && 2 <= |sequence| <= 4 && codec.values[sequence[0]] + |sequence| == 0
    requires ConvertedUnit(codec, sequence).Some?
    ensures IsMapped(codec, sequence, ConvertedUnit(codec, sequence).value)
  {
    hide PublicByte, StandsPublic, IsXmlChar;
    AllPublic(codec, sequence);
    assert Padded(sequence) == sequence + [0, 0, 0][..4 - |sequence|];
  }

  lemma StepSpelled(codec: Codec, piece: seq<Byte>, u: Unit, more: seq<Byte>)
    requires codec.Valid() && IsSpelling(codec, piece, u)
    ensures piece != [] && Decode(codec, piece + more) == Decode(codec, more).After([u])
  {
    hide NextOf, IsSpelling, ConvertedUnit;
    SpellingNext(codec, piece, u, more);
    assert (piece + more)[|piece|..] == more && (piece + more)[..|piece|] == piece;
  }

  lemma {:induction false} EncodesDecode(codec: Codec, a: seq<Byte>, units: seq<Unit>, rest: seq<Byte>)
    requires codec.Valid() && Encodes(codec, a, units)
    ensures Decode(codec, a + rest) == Decode(codec, rest).After(units)
    decreases |units|
  {
    hide Decode, IsSpelling;
    if units == [] {
      assert a + rest == rest && [] + Decode(codec, rest).units == Decode(codec, rest).units;
    } else {
      var n := units[0].width;
      StepSpelled(codec, a[..n], units[0], a[n..] + rest);
      EncodesDecode(codec, a[n..], units[1..], rest);
      assert a[..n] + (a[n..] + rest) == a + rest;
      Associative([units[0]], units[1..], Decode(codec, rest).units);
      assert [units[0]] + units[1..] == units;
    }
  }

  /** What decoding takes is spelled, and what it leaves begins nothing. */
  lemma {:induction false} DecodeSpelled(codec: Codec, b: seq<Byte>)
    requires codec.Valid()
    ensures
      var d := Decode(codec, b);
      && |d.rest| <= |b| && b[|b| - |d.rest|..] == d.rest && Encodes(codec, b[..|b| - |d.rest|], d.units)
      && BeginsNothing(codec, d.rest) && d.failed == (d.rest != [] && !IsTruncated(codec, d.rest))
    decreases |b|
  {
    hide NextOf, IsSpelling, ConvertedUnit, IsTruncated;
    NextExactly(codec, b);
    NextProgress(codec, b);
    var next := NextOf(codec, b);
    if next.Found? || (next.Conversion? && ConvertedUnit(codec, b[..next.width]).Some?) {
      var n := next.width;
      var u := if next.Found? then next.unit else ConvertedUnit(codec, b[..n]).value;
      if next.Conversion? { ConvertedSpelling(codec, b[..n]); MappedSpells(codec, b[..n], u); }
      DecodeSpelled(codec, b[n..]);
      var d := Decode(codec, b[n..]);
      assert Decode(codec, b) == d.After([u]);
      DecodeStuck(codec, b);
      EncodesFirst(codec, b, |b| - |d.rest|, u, d.units);
    } else {
      assert Decode(codec, b) == Decoded([], b, next != Starved);
      assert b[|b| - |b|..] == b && b[..0] == [];
      StopsHere(codec, b);
    }
  }

  lemma MappedSpells(codec: Codec, piece: seq<Byte>, u: Unit)
    requires codec.Valid() && (codec.encoding == SingleByte || codec.encoding == MultiByte)
    requires u.width == |piece| && IsMapped(codec, piece, u)
    ensures IsSpelling(codec, piece, u)
  {}

  lemma EncodesFirst(codec: Codec, b: seq<Byte>, good: nat, u: Unit, units: seq<Unit>)
    requires codec.Valid() && u.width <= good <= |b| && IsSpelling(codec, b[..u.width], u)
    requires Encodes(codec, b[u.width..][..good - u.width], units)
    ensures Encodes(codec, b[..good], [u] + units)
  {
    hide IsSpelling;
    assert b[..good][..u.width] == b[..u.width] && b[..good][u.width..] == b[u.width..][..good - u.width];
    assert ([u] + units)[1..] == units;
  }

  /** Where decoding stops at once, no character begins, and only missing bytes are no error. */
  lemma StopsHere(codec: Codec, b: seq<Byte>)
    requires codec.Valid() && Decode(codec, b).units == []
    ensures BeginsNothing(codec, b)
    ensures Decode(codec, b).failed == (b != [] && !IsTruncated(codec, b))
  {
    hide NextOf, IsSpelling, ConvertedUnit, IsTruncated, Decode;
    forall n: nat, u: Unit | n <= |b| && IsSpelling(codec, b[..n], u) ensures false {
      SpellingDecodes(codec, b, n, u);
    }
    StopKind(codec, b);
  }

  lemma SpellingDecodes(codec: Codec, b: seq<Byte>, n: nat, u: Unit)
    requires codec.Valid() && n <= |b| && IsSpelling(codec, b[..n], u)
    ensures Decode(codec, b).units != []
  {
    hide IsSpelling, Decode;
    StepSpelled(codec, b[..n], u, b[n..]);
    assert b[..n] + b[n..] == b;
  }

  lemma StopKind(codec: Codec, b: seq<Byte>)
    requires codec.Valid() && Decode(codec, b).units == []
    ensures Decode(codec, b).failed == (b != [] && !IsTruncated(codec, b))
  {
    hide NextOf, ConvertedUnit, IsTruncated;
    NextExactly(codec, b);
    NextProgress(codec, b);
    EmptyStarves(codec);
  }

  lemma EmptyStarves(codec: Codec)
    requires codec.Valid()
    ensures NextOf(codec, []) == Starved
  {}

  /** Every encoding, exactly: bytes decode to characters and a rest when, and only when, they are the
      spellings of those characters in front of bytes that begin none. Decoding failed unless the rest is
      empty or the beginning of a character. */
  lemma DecodesExactly(codec: Codec, b: seq<Byte>, units: seq<Unit>, rest: seq<Byte>)
    requires codec.Valid()
    ensures (Decode(codec, b).units == units && Decode(codec, b).rest == rest)
       <==> |rest| <= |b| && b[|b| - |rest|..] == rest && Encodes(codec, b[..|b| - |rest|], units)
            && BeginsNothing(codec, rest)
    ensures Decode(codec, b).failed == (Decode(codec, b).rest != [] && !IsTruncated(codec, Decode(codec, b).rest))
  {
    hide Decode, Encodes, BeginsNothing, IsTruncated;
    DecodeSpelled(codec, b);
    if |rest| <= |b| && b[|b| - |rest|..] == rest && Encodes(codec, b[..|b| - |rest|], units)
       && BeginsNothing(codec, rest) {
      EncodesDecode(codec, b[..|b| - |rest|], units, rest);
      assert b[..|b| - |rest|] + rest == b;
      NothingBegun(codec, rest);
      assert units + [] == units;
    }
  }

  lemma NothingBegun(codec: Codec, rest: seq<Byte>)
    requires codec.Valid() && BeginsNothing(codec, rest)
    ensures Decode(codec, rest).units == [] && Decode(codec, rest).rest == rest
  {
    hide NextOf, IsSpelling, ConvertedUnit, IsTruncated;
    NextExactly(codec, rest);
    NextProgress(codec, rest);
    var next := NextOf(codec, rest);
    if next.Conversion? && ConvertedUnit(codec, rest[..next.width]).Some? {
      ConvertedSpelling(codec, rest[..next.width]);
      MappedSpells(codec, rest[..next.width], ConvertedUnit(codec, rest[..next.width]).value);
      assert false;
    }
  }

  /** Input is read whole and without an error exactly when it is spelled. */
  lemma AcceptsExactly(codec: Codec, b: seq<Byte>, units: seq<Unit>)
    requires codec.Valid()
    ensures Decode(codec, b) == Decoded(units, [], false) <==> Encodes(codec, b, units)
  {
    hide Decode, Encodes, IsTruncated, IsSpelling;
    DecodesExactly(codec, b, units, []);
    assert b[..|b| - 0] == b && b[|b| - 0..] == [];
    assert BeginsNothing(codec, []) by { EmptyBegins(codec); }
  }

  lemma EmptyBegins(codec: Codec)
    requires codec.Valid()
    ensures BeginsNothing(codec, [])
  {
    var none: seq<Byte> := [];
    forall n: nat, u: Unit | n <= |none| && IsSpelling(codec, none[..n], u) ensures false {
      SpellingNext(codec, none[..n], u, []);
    }
  }
}
