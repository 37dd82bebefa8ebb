/** The incremental decoder: any chunks, any pauses for conversions, one result (encoding.rs). */
module Decoding {
  import opened Unicode
  import opened Wrappers
  import opened Errors
  import opened Names
  import opened Sources
  import opened SourceClass
  import opened Codecs
  import opened Detection

  const BLOCK: nat := 64 * 1024

  /** What a feed reports once every available conversion is answered. */
  function FeedError(encoding: Encoding, decoded: Decoded, final: bool): Option<ErrorKind> {
    if decoded.failed then Some(InvalidToken)
    else if final && decoded.rest != [] then
      Some(if (encoding == Utf16Le || encoding == Utf16Be) && |decoded.rest| == 1
           then UnclosedToken else PartialCharacter)
    else None
  }

  /** Which maps a custom encoding may install. */
  predicate MapAllowed(values: seq<int>, allowMultibyte: bool) {
    && |values| == 256
    && forall b: nat | b < 256 ::
         && (RequiredAscii(b) ==> values[b] == b)
         && (if allowMultibyte then -4 else -1) <= values[b] <= 0xFFFF
         && (RequiredAscii(values[b]) ==> values[b] == b)
  }

  function CustomEncoding(values: seq<int>): Encoding {
    if exists i: nat | i < |values| :: values[i] < -1 then MultiByte else SingleByte
  }

  /** Part of some bytes became units; the rest still decodes to what is missing. */
  ghost predicate Progress(codec: Codec, bytes: seq<Byte>, units: seq<Unit>, rest: seq<Byte>) {
    codec.Valid() && Decode(codec, bytes) == Decode(codec, rest).After(units)
  }

  lemma ProgressStarts(codec: Codec, bytes: seq<Byte>)
    requires codec.Valid()
    ensures Progress(codec, bytes, [], bytes)
  {
    assert [] + Decode(codec, bytes).units == Decode(codec, bytes).units;
  }

  lemma ProgressStep(codec: Codec, bytes: seq<Byte>, units: seq<Unit>, rest: seq<Byte>)
    requires Progress(codec, bytes, units, rest)
    ensures
      var next := NextOf(codec, rest);
      && (next.Found? ==> next.width <= |rest| && Progress(codec, bytes, units + [next.unit], rest[next.width..]))
      && (next.Malformed? ==> Decode(codec, bytes) == Decoded(units, rest, true))
      && (next.Starved? ==> Decode(codec, bytes) == Decoded(units, rest, false))
  {
    hide NextOf, ConvertedUnit;
    NextProgress(codec, rest);
    var next := NextOf(codec, rest);
    if next.Found? {
      Associative(units, [next.unit], Decode(codec, rest[next.width..]).units);
    }
    assert units + [] == units;
  }

  lemma ProgressConversion(codec: Codec, bytes: seq<Byte>, units: seq<Unit>, rest: seq<Byte>)
    requires Progress(codec, bytes, units, rest) && NextOf(codec, rest).Conversion?
    ensures
      var width := NextOf(codec, rest).width;
      && 1 <= width <= 4 && width <= |rest| && |codec.values| == 256
      && match ConvertedUnit(codec, rest[..width])
         case Some(unit) => Progress(codec, bytes, units + [unit], rest[width..])
         case None => Decode(codec, bytes) == Decoded(units, rest, true)
  {
    hide NextOf, ConvertedUnit;
    NextProgress(codec, rest);
    var width := NextOf(codec, rest).width;
    if ConvertedUnit(codec, rest[..width]).Some? {
      Associative(units, [ConvertedUnit(codec, rest[..width]).value], Decode(codec, rest[width..]).units);
    }
    assert units + [] == units;
  }

  /** More bytes extend both sides. */
  lemma ProgressExtends(codec: Codec, bytes: seq<Byte>, units: seq<Unit>, rest: seq<Byte>, more: seq<Byte>)
    requires Progress(codec, bytes, units, rest)
    ensures Progress(codec, bytes + more, units, rest + more)
  {
    DecodeConcat(codec, bytes, more);
    DecodeConcat(codec, rest, more);
    var tail := Decode(codec, rest);
    if !tail.failed { Associative(units, tail.units, Decode(codec, tail.rest + more).units); }
  }

  lemma ProgressTrans(codec: Codec, a: seq<Byte>, u: seq<Unit>, b: seq<Byte>, v: seq<Unit>, c: seq<Byte>)
    requires Progress(codec, a, u, b) && Progress(codec, b, v, c)
    ensures Progress(codec, a, u + v, c)
  {
    Associative(u, v, Decode(codec, c).units);
  }

  /** What is left over is a suffix on which decoding is stuck. */
  lemma {:induction false} DecodeStuck(codec: Codec, bytes: seq<Byte>)
    requires codec.Valid()
    ensures
      var d := Decode(codec, bytes);
      && |d.rest| <= |bytes| && d.rest == bytes[|bytes| - |d.rest|..]
      && Decode(codec, d.rest) == Decoded([], d.rest, d.failed)
      && (!d.failed ==> NextOf(codec, d.rest) == Starved)
    decreases |bytes|
  {
    hide NextOf, Decode;
    var width := DecodeTurn(codec, bytes);
    if width > 0 {
      DecodeStuck(codec, bytes[width..]);
      DropDrop(bytes, width, |bytes| - width - |Decode(codec, bytes).rest|);
    } else {
      assert bytes[0..] == bytes;
    }
  }

  /** Decoding either goes on behind its first character or stops at once. */
  lemma DecodeTurn(codec: Codec, bytes: seq<Byte>) returns (width: nat)
    requires codec.Valid()
    ensures
      var d := Decode(codec, bytes);
      if width > 0 then
        width <= |bytes| && d.rest == Decode(codec, bytes[width..]).rest && d.failed == Decode(codec, bytes[width..]).failed
      else d == Decoded([], bytes, d.failed) && (!d.failed ==> NextOf(codec, bytes) == Starved)
  {
    hide NextOf, ConvertedUnit;
    NextProgress(codec, bytes);
    var next := NextOf(codec, bytes);
    var goesOn := next.Found? || (next.Conversion? && ConvertedUnit(codec, bytes[..next.width]).Some?);
    width := if goesOn then next.width else 0;
  }

  /** The units `str::from_utf8` yields are those of their text. */
  lemma {:induction false} Utf8Units(codec: Codec, bytes: seq<Byte>)
    requires codec.encoding == Utf8Encoding
    ensures forall i: nat | i < |Decode(codec, bytes).units| ::
      var u := Decode(codec, bytes).units[i]; u.lex.Raw? && u.width == Width(u.lex.c)
    decreases |bytes|
  {
    hide NextUtf8, Encode, Width;
    NextProgress(codec, bytes);
    if NextUtf8(bytes).Found? {
      NextUtf8Sound(bytes);
      Utf8Units(codec, bytes[NextUtf8(bytes).width..]);
    }
  }

  /** `str::from_utf8`: the longest valid prefix, and whether an invalid byte follows it. */
  function FromUtf8(bytes: seq<Byte>): (r: (string, nat, bool))
    ensures r.1 <= |bytes|
  {
    var codec := Codec(Utf8Encoding, [], _ => 0, FifthEdition);
    var d := Decode(codec, bytes);
    DecodeStuck(codec, bytes);
    (Characters(d.units), |bytes| - |d.rest|, d.failed)
  }

  lemma FromUtf8Decodes(codec: Codec, bytes: seq<Byte>)
    requires codec.encoding == Utf8Encoding
    ensures
      var (text, upTo, bad) := FromUtf8(bytes);
      Decode(codec, bytes) == Decoded(FixedUnits(Utf8Encoding, text), bytes[upTo..], bad)
  {
    hide Decode, FixedUnits, Characters, NextOf;
    var plain := Codec(Utf8Encoding, [], _ => 0, FifthEdition);
    SameUtf8(codec, plain, bytes);
    DecodeStuck(plain, bytes);
    Utf8Units(plain, bytes);
    OwnUnits(Decode(plain, bytes).units);
  }

  lemma OwnUnits(units: seq<Unit>)
    requires forall i: nat | i < |units| :: units[i].lex.Raw? && units[i].width == Width(units[i].lex.c)
    ensures FixedUnits(Utf8Encoding, Characters(units)) == units
  {
    hide Width;
    forall i: nat | i < |units| ensures FixedUnits(Utf8Encoding, Characters(units))[i] == units[i] {
      assert Characters(units)[i] == units[i].Shown();
    }
  }

  lemma {:induction false} SameUtf8(a: Codec, b: Codec, bytes: seq<Byte>)
    requires a.encoding == b.encoding == Utf8Encoding
    ensures Decode(a, bytes) == Decode(b, bytes)
    decreases |bytes|
  {
    hide NextUtf8;
    NextProgress(a, bytes);
    if NextUtf8(bytes).Found? { SameUtf8(a, b, bytes[NextUtf8(bytes).width..]); }
  }
}
