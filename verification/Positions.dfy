/** Lines and columns as XML counts them (encoding.rs). */
module Positions {
  import opened Unicode
  import opened Words

  /** Where the next character stands, and whether the last one was a carriage return. */
  datatype Coordinates = Coordinates(line: nat, column: nat, previousCr: bool)

  /** One character of section 2.11 of XML 1.0: a CRLF counts as one line break. */
  function Step(at: Coordinates, c: char): Coordinates {
    match c
    case '\r' => Coordinates(at.line + 1, 0, true)
    case '\n' => Coordinates(if at.previousCr then at.line else at.line + 1, 0, false)
    case _ => Coordinates(at.line, at.column + 1, false)
  }

  /** The coordinates after a text. */
  function Advance(at: Coordinates, text: string): Coordinates
    decreases |text|
  {
    if text == "" then at else Advance(Step(at, text[0]), text[1..])
  }

  /** Splitting a text anywhere, even inside a CRLF, does not change where it ends. */
  lemma {:induction false} AdvanceConcat(at: Coordinates, a: string, b: string)
    ensures Advance(at, a + b) == Advance(Advance(at, a), b)
    decreases |a|
  {
    hide Step;
    if a == "" {
      assert a + b == b;
    } else {
      assert (a + b)[1..] == a[1..] + b;
      AdvanceConcat(Step(at, a[0]), a[1..], b);
    }
  }

  lemma AdvanceSplit(at: Coordinates, text: string, k: nat)
    requires k <= |text|
    ensures Advance(at, text) == Advance(Advance(at, text[..k]), text[k..])
  {
    AdvanceConcat(at, text[..k], text[k..]);
    assert text[..k] + text[k..] == text;
  }

  /** Text without line breaks only moves the column. */
  lemma {:induction false} AdvanceFlat(at: Coordinates, text: string)
    requires '\r' !in text && '\n' !in text
    ensures Advance(at, text) == if text == "" then at else Coordinates(at.line, at.column + |text|, false)
    decreases |text|
  {
    if text != "" {
      assert text[0] != '\r' && text[0] != '\n';
      AdvanceFlat(Step(at, text[0]), text[1..]);
    }
  }

  // ------------------------------------------------------ eight bytes at a time

  /** ASCII other than the two line breaks. */
  predicate Flat(b: Byte) { b < 0x80 && b != 0x0D && b != 0x0A }

  function BreakMarks(word: bv64): bv64 {
    var cr := word ^ 0x0D0D_0D0D_0D0D_0D0D;
    var lf := word ^ 0x0A0A_0A0A_0A0A_0A0A;
    (word | ((cr - LOW) & !cr) | ((lf - LOW) & !lf)) & HIGH
  }

  predicate FlatLane(b: bv8) { b < 0x80 && b != 0x0D && b != 0x0A }

  lemma FlatOctet(b: Byte)
    ensures FlatLane(b as bv8) <==> Flat(b)
  {
    OctetBounds(b);
    OctetEquals(b, 0x0D);
    OctetEquals(b, 0x0A);
  }

  /** An unmarked word holds no line break and no byte above ASCII. */
  lemma UnmarkedFlat(b0: bv8, b1: bv8, b2: bv8, b3: bv8, b4: bv8, b5: bv8, b6: bv8, b7: bv8)
    requires BreakMarks(Load(b0, b1, b2, b3, b4, b5, b6, b7)) == 0
    ensures FlatLane(b0) && FlatLane(b1) && FlatLane(b2) && FlatLane(b3)
    ensures FlatLane(b4) && FlatLane(b5) && FlatLane(b6) && FlatLane(b7)
  {}

  lemma UnmarkedChunk(chunk: seq<Byte>)
    requires |chunk| == 8 && BreakMarks(Word(chunk)) == 0
    ensures forall i: nat | i < 8 :: Flat(chunk[i])
  {
    forall i: nat | i < 8 ensures FlatLane(chunk[i] as bv8) <==> Flat(chunk[i]) { FlatOctet(chunk[i]); }
    UnmarkedFlat(chunk[0] as bv8, chunk[1] as bv8, chunk[2] as bv8, chunk[3] as bv8,
                 chunk[4] as bv8, chunk[5] as bv8, chunk[6] as bv8, chunk[7] as bv8);
  }

  lemma FlatPrefix(text: string)
    requires Len(text) >= 8 && forall i: nat | i < 8 :: Flat(Utf8(text)[i])
    ensures |text| >= 8 && '\r' !in text[..8] && '\n' !in text[..8]
  {
    AsciiPrefix(text, 8);
    forall i: nat | i < 8 ensures text[..8][i] != '\r' && text[..8][i] != '\n' {
      assert text[i] as int == Utf8(text)[i];
    }
  }

  /** `advance_position`: flat words first, then one scalar pass; long texts use the byte search. */
  method AdvancePosition(text: string, from: Coordinates) returns (to: Coordinates)
    ensures to == Advance(from, text)
  {
    if Len(text) <= 128 {
      to := from;
      var rest := text;
      while Len(rest) >= 8
        invariant Advance(to, rest) == Advance(from, text)
        decreases |rest|
      {
        hide *;
        var chunk := Utf8(rest)[..8];
        if BreakMarks(Word(chunk)) != 0 {
          break;
        }
        UnmarkedChunk(chunk);
        FlatPrefix(rest);
        AdvanceSplit(to, rest, 8);
        AdvanceFlat(to, rest[..8]);
        to := Coordinates(to.line, to.column + 8, false);
        rest := rest[8..];
      }
      while rest != ""
        invariant Advance(to, rest) == Advance(from, text)
        decreases |rest|
      {
        var character := rest[0];
        if character == '\r' {
          to := Coordinates(to.line + 1, 0, true);
        } else if character == '\n' {
          to := Coordinates(if to.previousCr then to.line else to.line + 1, 0, false);
        } else {
          to := Coordinates(to.line, to.column + 1, false);
        }
        rest := rest[1..];
      }
    } else {
      to := AdvanceLongPosition(text, from);
    }
  }

  /** `memchr2(b'\r', b'\n', ..)`: the first line break, as a character index. */
  function FindBreak(text: string): (k: nat)
    ensures k <= |text| && '\r' !in text[..k] && '\n' !in text[..k]
    ensures k < |text| ==> text[k] == '\r' || text[k] == '\n'
  {
    if text == "" || text[0] == '\r' || text[0] == '\n' then 0
    else
      assert forall j: nat :: j <= |text| - 1 ==> text[..j + 1] == [text[0]] + text[1..][..j];
      1 + FindBreak(text[1..])
  }

  /** `advance_long_position`: jump from line break to line break. */
  method AdvanceLongPosition(text: string, from: Coordinates) returns (to: Coordinates)
    ensures to == Advance(from, text)
  {
    to := from;
    var rest := text;
    while FindBreak(rest) < |rest|
      invariant Advance(to, rest) == Advance(from, text)
      decreases |rest|
    {
      var index := FindBreak(rest);
      var cr := rest[index] == '\r';
      BreakAfter(to, rest, index);
      var line := if cr || index != 0 || !to.previousCr then to.line + 1 else to.line;
      to := Coordinates(line, 0, cr);
      rest := rest[index + 1..];
    }
    AdvanceFlat(to, rest);
    if rest != "" {
      to := Coordinates(to.line, to.column + |rest|, false);
    }
  }

  lemma BreakAfter(at: Coordinates, text: string, k: nat)
    requires k < |text| && '\r' !in text[..k] && '\n' !in text[..k] && (text[k] == '\r' || text[k] == '\n')
    ensures
      var cr := text[k] == '\r';
      Advance(at, text) ==
        Advance(Coordinates(if cr || k != 0 || !at.previousCr then at.line + 1 else at.line, 0, cr), text[k + 1..])
  {
    AdvanceSplit(at, text, k);
    AdvanceFlat(at, text[..k]);
    assert text[k..][1..] == text[k + 1..];
  }
}
