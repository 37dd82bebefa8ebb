/** The decoded source: one buffer, its cursor, and coordinates in the original input (encoding.rs). */
module SourceClass {
  import opened Unicode
  import opened Wrappers
  import opened Positions
  import opened TextPlans
  import opened Lexical
  import opened LexicalBuffer
  import opened Sources

  /** The whole decoded input: every unit ever stored, how many were consumed, how many were dropped. */
  datatype Ledger = Ledger(start: Place, units: seq<Unit>, consumed: nat, dropped: nat)
  {
    predicate Ordered() { dropped <= consumed <= |units| }

    /** The stored text, and the part of it that was not consumed. */
    function Stored(): string
      requires Ordered()
    {
      Characters(units[dropped..])
    }

    function StoredLex(): seq<LexChar>
      requires Ordered()
    {
      Lex(units[dropped..])
    }

    function Unread(): string
      requires Ordered()
    {
      Characters(units[consumed..])
    }

    /** The place of the `i`th unread character. */
    function PlaceAt(i: nat): Place
      requires Ordered() && consumed + i <= |units|
    {
      After(start, units[..consumed + i])
    }

    /** The original bytes of unread characters `i..j`. */
    function RawBetween(i: nat, j: nat): nat
      requires Ordered() && i <= j && consumed + j <= |units|
    {
      RawSum(units[consumed + i..consumed + j])
    }
  }

  lemma StoredSplits(l: Ledger)
    requires l.Ordered()
    ensures l.Stored() == Characters(l.units[l.dropped..l.consumed]) + l.Unread()
    ensures |l.Unread()| == |l.units| - l.consumed
    ensures l.Stored()[l.consumed - l.dropped..] == l.Unread()
    ensures l.Stored()[..l.consumed - l.dropped] == Characters(l.units[l.dropped..l.consumed])
  {
    var a, b := l.units[l.dropped..l.consumed], l.units[l.consumed..];
    assert l.units[l.dropped..] == a + b;
    StoredConcat(l, a, b);
  }

  lemma StoredConcat(l: Ledger, a: seq<Unit>, b: seq<Unit>)
    requires l.Ordered() && l.units[l.dropped..] == a + b && b == l.units[l.consumed..]
    ensures l.Stored() == Characters(a) + l.Unread() && l.Unread() == Characters(b)
  {
    assert Characters(a + b) == Characters(a) + Characters(b);
  }

  lemma CharactersSlice(units: seq<Unit>, i: nat, j: nat)
    requires i <= j <= |units|
    ensures Characters(units)[i..j] == Characters(units[i..j])
  {}

  /** Coordinates between two unread characters, from the first one's place. */
  lemma PlaceSteps(l: Ledger, i: nat, j: nat)
    requires l.Ordered() && i <= j && l.consumed + j <= |l.units|
    ensures l.PlaceAt(j).byteIndex == l.PlaceAt(i).byteIndex + l.RawBetween(i, j)
    ensures l.PlaceAt(j).at == Advance(l.PlaceAt(i).at, l.Unread()[i..j])
  {
    var a, b := l.units[..l.consumed + i], l.units[l.consumed + i..l.consumed + j];
    assert l.units[..l.consumed + j] == a + b;
    CharactersSlice(l.units[l.consumed..], i, j);
    assert l.units[l.consumed..][i..j] == b;
    AfterConcat(l.start, a, b);
  }

  /** The byte offsets of a window inside the stored text. */
  lemma WindowOffsets(l: Ledger, i: nat, j: nat)
    requires l.Ordered() && i <= j && l.consumed + j <= |l.units|
    ensures
      var skipped := Len(l.Stored()[..l.consumed - l.dropped]);
      && skipped + Len(l.Unread()[..i]) == Len(l.Stored()[..l.consumed - l.dropped + i])
      && skipped + Len(l.Unread()[..j]) == Len(l.Stored()[..l.consumed - l.dropped + j])
  {
    StoredSplits(l);
    OffsetAcross(l.Stored(), l.consumed - l.dropped, i);
    OffsetAcross(l.Stored(), l.consumed - l.dropped, j);
  }

  /** The width table's window over unread characters sums to their original bytes. */
  lemma WindowSum(l: Ledger, i: nat, j: nat)
    requires l.Ordered() && i <= j && l.consumed + j <= |l.units|
    ensures
      var widths := RawWidths(l.units[l.dropped..]);
      var skipped := Len(l.Stored()[..l.consumed - l.dropped]);
      var from, to := skipped + Len(l.Unread()[..i]), skipped + Len(l.Unread()[..j]);
      from <= to <= |widths| && Sum(widths[from..to]) == l.RawBetween(i, j)
  {
    hide Len, RawWidths, RawSum, Characters, Width, Sum;
    var stored := l.units[l.dropped..];
    var k := l.consumed - l.dropped;
    WindowOffsets(l, i, j);
    RawWidthsSlice(stored, k + i, k + j);
    DropSlice(l.units, l.dropped, k + i, k + j);
    RawWidthsSum(stored[k + i..k + j]);
  }

  lemma FixedWindow(encoding: Encoding, l: Ledger, i: nat, j: nat)
    requires l.Ordered() && i <= j && l.consumed + j <= |l.units| && encoding != MultiByte && Fixed(encoding, l.units)
    ensures EncodingRawLen(encoding, l.Unread()[i..j]) == l.RawBetween(i, j)
  {
    hide Characters;
    CharactersSlice(l.units[l.consumed..], i, j);
    DropSlice(l.units, l.consumed, i, j);
    EncodingRawSum(encoding, l.units[l.consumed + i..l.consumed + j]);
  }

  /** A place that was worked out once and is moved forward while nothing is consumed. */
  class PositionCursor {
    var offset: nat
    var place: Place

    constructor (place: Place)
      ensures offset == 0 && this.place == place
    {
      offset, this.place := 0, place;
    }

    ghost predicate Follows(source: Source)
      requires source.Valid()
      reads this, source, source.text
    {
      && IsBoundary(source.Remaining(), offset)
      && (source.anchor.None? ==> place == source.ledger.PlaceAt(CharIndex(source.Remaining(), offset)))
    }
  }

  class Source {
    const text: Buffer
    var cursor: nat
    var retainNativeInput: bool
    var encoding: Encoding
    var rawIndex: nat
    var rawWidths: seq<nat>
    var decodedEnd: Place
    var line: nat
    var column: nat
    var previousCr: bool
    const anchor: Option<Position>

    ghost var ledger: Ledger

    function Here(): Place
      reads this
    {
      Place(rawIndex, Coordinates(line, column, previousCr))
    }

    /** The fields that must move together, each tied to the abstract input. */
    ghost predicate Valid()
      reads this, text
    {
      && text.Valid() && ledger.Ordered()
      && text.text == ledger.Stored() && text.Contents() == ledger.StoredLex()
      && cursor == Len(ledger.Stored()[..ledger.consumed - ledger.dropped])
      && Here() == ledger.PlaceAt(0)
      && (encoding != MultiByte ==> Fixed(encoding, ledger.units))
      && (encoding == MultiByte ==>
            && rawWidths == RawWidths(ledger.units[ledger.dropped..])
            && decodedEnd == After(ledger.start, ledger.units)
            && PositiveWidths(ledger.units))
      && (anchor.Some? ==> encoding == Utf8Encoding)
    }

    /** Multibyte input: the width table is nonzero exactly at the starts of stored characters, and
        its unread part accounts for every original byte between the cursor and the decoded end. */
    lemma WidthTable()
      requires Valid() && encoding == MultiByte
      ensures |rawWidths| == Len(text.text) && cursor <= |rawWidths|
      ensures forall offset: nat | offset < |rawWidths| :: rawWidths[offset] != 0 <==> IsBoundary(text.text, offset)
      ensures Sum(rawWidths[cursor..]) + rawIndex == decodedEnd.byteIndex
    {
      hide Buffer.Valid, RawWidths, RawSum, Advance, Width, Sum, EncodedWidth;
      forall offset: nat | offset < |rawWidths| ensures rawWidths[offset] != 0 <==> IsBoundary(text.text, offset) {
        WidthsMarkStarts(ledger.units[ledger.dropped..], offset);
      }
      DroppedWidths(ledger);
      RawWidthsSum(ledger.units[ledger.consumed..]);
      RawSumConcat(ledger.units[..ledger.consumed], ledger.units[ledger.consumed..]);
      assert ledger.units[..ledger.consumed] + ledger.units[ledger.consumed..] == ledger.units;
      assert ledger.units[..ledger.consumed + 0] == ledger.units[..ledger.consumed];
    }

    /** `remaining`: the text from the cursor on. */
    function Remaining(): (rest: string)
      requires Valid()
      reads this, text
      ensures rest == ledger.Unread()
    {
      StoredSplits(ledger);
      CharIndexAt(text.text, ledger.consumed - ledger.dropped);
      text.text[CharIndex(text.text, cursor)..]
    }

    constructor (retained: bool)
      ensures Valid() && fresh(text) && anchor == None && encoding == Utf8Encoding
      ensures retainNativeInput == retained
      ensures ledger == Ledger(Place(0, Coordinates(1, 0, false)), [], 0, 0)
    {
      text := new Buffer("");
      cursor, retainNativeInput, encoding := 0, retained, Utf8Encoding;
      rawIndex, rawWidths, decodedEnd := 0, [], Place(0, Coordinates(1, 0, false));
      line, column, previousCr := 1, 0, false;
      anchor := None;
      ledger := Ledger(Place(0, Coordinates(1, 0, false)), [], 0, 0);
      new;
      assert text.Valid();
      hide Buffer.Valid, Walk, Table, Lexical.Shown, Len, RawWidths, RawSum, Advance, Characters;
      EmptyLedger(Place(0, Coordinates(1, 0, false)));
      assert Plain("") == [];
    }

    /** `Source::entity`: a finite replacement text that reports the referring position. */
    constructor Entity(replacement: string, position: Position)
      ensures Valid() && fresh(text) && anchor == Some(position) && Remaining() == replacement
    {
      text := new Buffer(replacement);
      cursor, retainNativeInput, encoding := 0, false, Utf8Encoding;
      rawIndex, rawWidths, decodedEnd := 0, [], Place(0, Coordinates(1, 0, false));
      line, column, previousCr := 1, 0, false;
      anchor := Some(position);
      ghost var units := seq(|replacement|, i requires 0 <= i < |replacement| =>
        Unit(Raw(replacement[i]), EncodedWidth(Utf8Encoding, replacement[i])));
      ledger := Ledger(Place(0, Coordinates(1, 0, false)), units, 0, 0);
      new;
      assert Characters(units[0..]) == replacement && Lex(units[0..]) == Plain(replacement);
      assert replacement[..0] == "" && units[..0] == [];
      ScalarsShown(replacement);
    }

    /** Whether consumed text is kept for an adapter that shares the buffer. */
    method Retain(retained: bool)
      requires Valid()
      modifies this`retainNativeInput
      ensures Valid() && retainNativeInput == retained
    {
      hide Walk, Table, Lexical.Shown, Len, RawWidths, RawSum, Advance, Characters, Fixed;
      retainNativeInput := retained;
    }

    /** An encoding is selected before anything is decoded; a byte order mark advances the origin. */
    method Select(selected: Encoding, skip: nat)
      requires Valid() && ledger.units == [] && anchor == None
      modifies this
      ensures Valid() && encoding == selected && old(ledger.consumed) == old(ledger.dropped) == 0
      ensures
        var was := old(ledger.start.at);
        ledger == Ledger(Place(skip, Coordinates(was.line, if skip != 0 then 1 else 0, was.previousCr)), [], 0, 0)
    {
      encoding := selected;
      rawIndex := skip;
      column := if skip != 0 then 1 else 0;
      ledger := Ledger(Here(), [], 0, 0);
      if selected == MultiByte {
        rawWidths, decodedEnd := [], Here();
      }
    }

    /** Appending decoded text of an encoding with fixed widths. */
    method PushText(more: string)
      requires Valid() && encoding != MultiByte
      modifies this, text
      ensures Valid() && encoding == old(encoding) && Here() == old(Here()) && cursor == old(cursor)
      ensures ledger == old(ledger).(units := old(ledger.units) + FixedUnits(encoding, more))
      ensures retainNativeInput == old(retainNativeInput)
    {
      text.PushStr(more);
      ledger := ledger.(units := ledger.units + FixedUnits(encoding, more));
      Extended(old(ledger), FixedUnits(encoding, more));
      FixedExtended(encoding, old(ledger).units, more);
    }

    /** `push_custom`: one character of a custom encoding, with the bytes it was converted from. */
    method PushCustom(character: char, rawWidth: nat, converted: Option<(seq<Byte>, bool)>)
      requires Valid() && rawWidth >= 1
      requires encoding == MultiByte || (encoding == SingleByte && rawWidth == 1)
      modifies this, text
      ensures Valid() && encoding == old(encoding) && Here() == old(Here()) && cursor == old(cursor)
      ensures ledger == old(ledger).(units := old(ledger.units) + [CustomUnit(character, rawWidth, converted)])
    {
      hide Walk, Table, Lexical.Shown, Len, RawWidths, RawSum, Advance, Characters, Width, Representative, Sum;
      hide Buffer.Valid, After, Ledger.PlaceAt, Ledger.Stored, Ledger.StoredLex;
      var shown := if converted.Some? && rawWidth > 1 then Representative(character) else character;
      ghost var unit := CustomUnit(character, rawWidth, converted);
      ledger := ledger.(units := ledger.units + [unit]);
      Extended(old(ledger), [unit]);
      if converted.Some? {
        var _ := text.PushConversion(character, converted.value.0, rawWidth, converted.value.1);
      } else {
        text.PushStr([character]);
      }
      SingleCharacter(unit);
      if encoding == MultiByte {
        rawWidths := rawWidths + [rawWidth] + Zeros(Width(shown) - 1);
        SingleWidths(old(ledger), unit);
        decodedEnd := Place(decodedEnd.byteIndex + rawWidth, Step(decodedEnd.at, shown));
        AfterOne(old(ledger), unit);
      }
    }

    lemma RawWindow(offset: nat, count: nat)
      requires Valid() && IsBoundary(Remaining(), offset) && IsBoundary(Remaining(), offset + count)
      ensures
        var i, j := CharIndex(Remaining(), offset), CharIndex(Remaining(), offset + count);
        && i <= j && Len(Remaining()[i..j]) == count
        && (encoding == MultiByte ==>
              && cursor + offset + count <= |rawWidths|
              && Sum(rawWidths[cursor + offset..cursor + offset + count]) == ledger.RawBetween(i, j))
        && (encoding != MultiByte ==> EncodingRawLen(encoding, Remaining()[i..j]) == ledger.RawBetween(i, j))
    {
      hide Buffer.Valid, Len, RawWidths, RawSum, Advance, Characters, Width, Sum, EncodedWidth, After, EncodingRawLen;
      var i, j := CharIndex(Remaining(), offset), CharIndex(Remaining(), offset + count);
      IndexOrder(Remaining(), offset, offset + count);
      OffsetsIncrease(Remaining(), i, j);
      if encoding == MultiByte {
        WindowSum(ledger, i, j);
      } else {
        FixedWindow(encoding, ledger, i, j);
      }
    }

    /** `raw_len`: original bytes of a window of the unread text. */
    function RawLen(offset: nat, count: nat): (n: nat)
      requires Valid() && IsBoundary(Remaining(), offset) && IsBoundary(Remaining(), offset + count)
      reads this, text
      ensures
        var i, j := CharIndex(Remaining(), offset), CharIndex(Remaining(), offset + count);
        i <= j && n == ledger.RawBetween(i, j)
    {
      RawWindow(offset, count);
      if encoding == Utf8Encoding || encoding == Ascii then count
      else if encoding == MultiByte then Sum(rawWidths[cursor + offset..cursor + offset + count])
      else EncodingRawLen(encoding, Remaining()[CharIndex(Remaining(), offset)..CharIndex(Remaining(), offset + count)])
    }

    /** The place of a part of the unread text, as the fold over the whole input gives it. Text of an
        entity has one place, its reference's. */
    ghost predicate IsPlaceOf(position: Position, offset: nat, count: nat)
      requires Valid() && IsBoundary(Remaining(), offset) && IsBoundary(Remaining(), offset + count)
      reads this, text
    {
      var i, j := CharIndex(Remaining(), offset), CharIndex(Remaining(), offset + count);
      i <= j <= |Remaining()| && position == if anchor.Some? then anchor.value
                                             else AsPosition(ledger.PlaceAt(i), ledger.RawBetween(i, j))
    }

    /** `position`: the current place and the original length of a prefix. */
    method PositionHere(count: nat) returns (position: Position)
      requires Valid() && IsBoundary(Remaining(), count)
      ensures position == if anchor.Some? then anchor.value
                          else AsPosition(ledger.PlaceAt(0), ledger.RawBetween(0, CharIndex(Remaining(), count)))
    {
      if anchor.Some? {
        return anchor.value;
      }
      BoundaryZero(Remaining());
      return Position(rawIndex, line, column, RawLen(0, count));
    }

    /** `position_at`: the place of an unread offset. */
    method PositionAt(offset: nat, count: nat) returns (position: Position)
      requires Valid() && IsBoundary(Remaining(), offset) && IsBoundary(Remaining(), offset + count)
      ensures IsPlaceOf(position, offset, count)
    {
      var length := RawLen(offset, count);
      if anchor.Some? {
        return anchor.value;
      }
      var i := CharIndex(Remaining(), offset);
      BoundaryZero(Remaining());
      var to := AdvancePosition(Remaining()[..i], Coordinates(line, column, previousCr));
      PlaceSteps(ledger, 0, i);
      assert Remaining()[0..i] == Remaining()[..i];
      return Position(rawIndex + RawLen(0, offset), to.line, to.column, length);
    }

    /** `position_from_cursor`: advance retained coordinates instead of starting over. */
    method PositionFromCursor(kept: PositionCursor, offset: nat, count: nat) returns (position: Position)
      requires Valid() && kept.Follows(this) && kept.offset <= offset
      requires IsBoundary(Remaining(), offset) && IsBoundary(Remaining(), offset + count)
      modifies kept
      ensures kept.Follows(this) && kept.offset == offset
      ensures IsPlaceOf(position, offset, count)
    {
      hide Buffer.Valid, Len, RawWidths, RawSum, Advance, Characters, Width, Sum, EncodedWidth;
      var length := RawLen(offset, count);
      if anchor.Some? {
        kept.offset := offset;
        return anchor.value;
      }
      var i, j := CharIndex(Remaining(), kept.offset), CharIndex(Remaining(), offset);
      var skipped := RawLen(kept.offset, offset - kept.offset);
      var to := AdvancePosition(Remaining()[i..j], kept.place.at);
      PlaceSteps(ledger, i, j);
      kept.place := Place(kept.place.byteIndex + skipped, to);
      kept.offset := offset;
      return AsPosition(kept.place, length);
    }

    /** `position_cursor`: coordinates retained from the current place. */
    method NewPositionCursor() returns (kept: PositionCursor)
      requires Valid()
      ensures fresh(kept) && kept.Follows(this) && kept.offset == 0
    {
      BoundaryZero(Remaining());
      kept := new PositionCursor(Here());
    }

    /** Parts of the unread text, none before the one it follows. */
    ghost predicate InOrder(parts: seq<(nat, nat)>)
      requires Valid()
      reads this, text
    {
      && (forall k: nat | k < |parts| ::
           IsBoundary(Remaining(), parts[k].0) && IsBoundary(Remaining(), parts[k].0 + parts[k].1))
      && forall k: nat, l: nat | k < l < |parts| :: parts[k].0 <= parts[l].0
    }

    /** The places of parts of the unread text, each reached from the one before: the same as each
        looked up by itself. */
    method PositionsOf(parts: seq<(nat, nat)>) returns (positions: seq<Position>)
      requires Valid() && InOrder(parts)
      ensures |positions| == |parts|
      ensures forall k: nat | k < |parts| ::
        IsPlaceOf(positions[k], parts[k].0, parts[k].1)
    {
      hide Valid, IsPlaceOf, IsBoundary, Len, RawWidths, RawSum, Advance, Ledger.PlaceAt, Ledger.RawBetween;
      var kept := NewPositionCursor();
      positions := [];
      while |positions| < |parts|
        invariant |positions| <= |parts| && fresh(kept) && kept.Follows(this)
        invariant forall l: nat | |positions| <= l < |parts| :: kept.offset <= parts[l].0
        invariant forall k: nat | k < |positions| ::
          IsPlaceOf(positions[k], parts[k].0, parts[k].1)
      {
        var part := parts[|positions|];
        var position := PositionFromCursor(kept, part.0, part.1);
        positions := positions + [position];
      }
    }

    /** `end_position`: kept incrementally for multibyte input, computed from the text otherwise. */
    method EndPosition() returns (position: Position)
      requires Valid()
      ensures position == if anchor.Some? then anchor.value
                          else AsPosition(After(ledger.start, ledger.units), 0)
    {
      if encoding == MultiByte {
        return AsPosition(decodedEnd, 0);
      }
      hide Buffer.Valid, Len, RawWidths, RawSum, Advance, Width, Sum, EncodedWidth, Fixed, PositiveWidths;
      hide IsBoundary, After, Ledger.PlaceAt, Ledger.RawBetween;
      WholeUnread(ledger);
      position := PositionAt(Len(Remaining()), 0);
    }

    /** `consume`: retire a prefix of the unread text. */
    method Consume(count: nat)
      requires Valid() && IsBoundary(Remaining(), count)
      modifies this, text
      ensures Valid() && encoding == old(encoding) && retainNativeInput == old(retainNativeInput)
      ensures ledger.units == old(ledger.units) && ledger.start == old(ledger.start)
      ensures ledger.consumed == old(ledger.consumed + CharIndex(Remaining(), count))
      ensures Retired(old(text.text), old(cursor), count, ledger.consumed - old(ledger.dropped))
    {
      hide Walk, Table, Lexical.Shown, Len, RawWidths, RawSum, Advance, Characters, Width, Representative, Sum;
      var k := CharIndex(Remaining(), count);
      BoundaryZero(Remaining());
      assert Remaining()[0..k] == Remaining()[..k];
      PlaceSteps(ledger, 0, k);
      var width := RawLen(0, count);
      var to := AdvancePosition(Remaining()[..k], Coordinates(line, column, previousCr));
      rawIndex := rawIndex + width;
      line, column, previousCr := to.line, to.column, to.previousCr;
      FinishConsume(count, k);
    }

    /** `consume_ascii_tag`: a native tag without line breaks only moves the column. */
    method ConsumeAsciiTag(count: nat)
      requires Valid() && encoding == Utf8Encoding && 0 < count <= |Remaining()|
      requires forall i: nat | i < count ::
        IsAscii(Remaining()[i]) && Remaining()[i] != '\r' && Remaining()[i] != '\n'
      modifies this, text
      ensures Valid() && encoding == old(encoding)
      ensures ledger.units == old(ledger.units) && ledger.start == old(ledger.start)
      ensures ledger.consumed == old(ledger.consumed) + count
      ensures Retired(old(text.text), old(cursor), count, ledger.consumed - old(ledger.dropped))
    {
      hide Buffer.Valid, Len, RawWidths, RawSum, Advance, Characters, Width, Sum, EncodedWidth;
      AsciiLen(Remaining()[..count]);
      CharIndexAt(Remaining(), count);
      AdvanceFlat(Coordinates(line, column, previousCr), Remaining()[..count]);
      PlaceSteps(ledger, 0, count);
      FixedWindow(encoding, ledger, 0, count);
      assert Remaining()[0..count] == Remaining()[..count];
      rawIndex, column, previousCr := rawIndex + count, column + count, false;
      FinishConsume(count, count);
    }

    /** `consume_text`: commit a plan; the state is the one an eager `consume` of its end leaves. */
    method ConsumeText(plan: TextPlan)
      requires Valid() && encoding == Utf8Encoding
      requires Commits(plan, Remaining())
      modifies this, text
      ensures Valid() && encoding == old(encoding)
      ensures ledger.units == old(ledger.units) && ledger.start == old(ledger.start)
      ensures old(IsBoundary(Remaining(), plan.end))
      ensures ledger.consumed == old(ledger.consumed + CharIndex(Remaining(), plan.end))
      ensures Retired(old(text.text), old(cursor), plan.end, ledger.consumed - old(ledger.dropped))
    {
      hide Buffer.Valid, Len, RawWidths, RawSum, Advance, Characters, Width, Sum, EncodedWidth, Utf8, Newlines, LineStart;
      var at := Coordinates(line, column, previousCr);
      CharIndexAt(Remaining(), plan.end);
      PlaceSteps(ledger, 0, plan.end);
      FixedWindow(encoding, ledger, 0, plan.end);
      assert Remaining()[0..plan.end] == Remaining()[..plan.end];
      var to := plan.AdvancePosition(at);
      rawIndex := rawIndex + plan.end;
      line, column, previousCr := to.line, to.column, to.previousCr;
      FinishConsume(plan.end, plan.end);
    }

    /** How consuming left the buffer: the cursor moved, or the consumed prefix was compacted away. */
    predicate Retired(was: string, at: nat, count: nat, k: nat)
      requires k <= |was|
      reads this, text
    {
      if !retainNativeInput && at + count >= 64 * 1024 && at + count >= Len(was) / 2
      then text.text == was[k..] && cursor == 0
      else text.text == was && cursor == at + count
    }

    /** `finish_consume`: move the cursor and compact once the consumed prefix dominates the buffer. */
    method FinishConsume(count: nat, ghost k: nat)
      requires text.Valid() && ledger.Ordered() && text.text == ledger.Stored() && text.Contents() == ledger.StoredLex()
      requires cursor == Len(ledger.Stored()[..ledger.consumed - ledger.dropped])
      requires ledger.consumed + k <= |ledger.units| && count == Len(ledger.Unread()[..k])
      requires Here() == ledger.PlaceAt(k)
      requires encoding != MultiByte ==> Fixed(encoding, ledger.units)
      requires encoding == MultiByte ==>
        rawWidths == RawWidths(ledger.units[ledger.dropped..]) && decodedEnd == After(ledger.start, ledger.units)
        && PositiveWidths(ledger.units)
      requires anchor.Some? ==> encoding == Utf8Encoding
      modifies this`cursor, this`rawWidths, this`ledger, text
      ensures Valid()
      ensures ledger.units == old(ledger.units) && ledger.start == old(ledger.start)
      ensures ledger.consumed == old(ledger.consumed) + k
      ensures Retired(old(text.text), old(cursor), count, old(ledger.consumed - ledger.dropped) + k)
    {
      hide Walk, Table, Lexical.Shown, Len, RawWidths, RawSum, Advance, Characters, Width, Representative, Sum;
      hide Fixed, PositiveWidths, Buffer.Valid, After;
      WindowOffsets(ledger, k, k);
      cursor := cursor + count;
      ledger := ledger.(consumed := ledger.consumed + k);
      if !retainNativeInput && cursor >= 64 * 1024 && cursor >= Len(text.text) / 2 {
        Compact();
      }
    }

    /** Drop the consumed characters and their widths. */
    method Compact()
      requires Valid()
      modifies this`cursor, this`rawWidths, this`ledger, text
      ensures Valid() && cursor == 0 && ledger == old(ledger).(dropped := old(ledger).consumed)
      ensures text.text == old(text.text[ledger.consumed - ledger.dropped..])
    {
      hide Walk, Table, Lexical.Shown, Len, RawWidths, RawSum, Advance, Characters, Width, Representative, Sum;
      hide Fixed, PositiveWidths, Buffer.Valid, After;
      CharIndexAt(text.text, ledger.consumed - ledger.dropped);
      DroppedWidths(ledger);
      text.DiscardPrefix(cursor);
      if encoding == MultiByte {
        rawWidths := rawWidths[cursor..];
      }
      cursor := 0;
      ledger := ledger.(dropped := ledger.consumed);
    }
  }

  ghost predicate PositiveWidths(units: seq<Unit>) { forall u | u in units :: u.width > 0 }

  lemma ScalarsShown(s: string)
    ensures Shown(Plain(s)) == s
  {}

  function FixedUnits(encoding: Encoding, s: string): (units: seq<Unit>)
    ensures |units| == |s| && Characters(units) == s
  {
    seq(|s|, i requires 0 <= i < |s| => Unit(Raw(s[i]), EncodedWidth(encoding, s[i])))
  }

  /** A character of a custom encoding: converted when it is not its own byte. */
  function CustomUnit(character: char, rawWidth: nat, converted: Option<(seq<Byte>, bool)>): (unit: Unit)
    requires rawWidth >= 1
  {
    match converted
    case Some((bytes, publicValid)) => Unit(Converted(character, bytes, rawWidth, publicValid), rawWidth)
    case None => Unit(Raw(character), rawWidth)
  }

  lemma Extended(l: Ledger, more: seq<Unit>)
    requires l.Ordered()
    ensures
      var longer := l.(units := l.units + more);
      && longer.Ordered() && longer.Stored() == l.Stored() + Characters(more)
      && longer.Stored()[..l.consumed - l.dropped] == l.Stored()[..l.consumed - l.dropped]
      && longer.PlaceAt(0) == l.PlaceAt(0)
      && longer.units[l.dropped..] == l.units[l.dropped..] + more
      && longer.StoredLex() == l.StoredLex() + Lex(more)
  {
    assert (l.units + more)[..l.consumed] == l.units[..l.consumed];
    assert (l.units + more)[l.dropped..] == l.units[l.dropped..] + more;
  }

  lemma FixedExtended(encoding: Encoding, units: seq<Unit>, more: string)
    requires Fixed(encoding, units)
    ensures Fixed(encoding, units + FixedUnits(encoding, more))
  {
    forall u | u in units + FixedUnits(encoding, more) ensures u.width == EncodedWidth(encoding, u.Shown()) {
      if u !in units { assert u in FixedUnits(encoding, more); }
    }
  }

  lemma SingleCharacter(unit: Unit)
    ensures Characters([unit]) == [unit.Shown()] && Lex([unit]) == [unit.lex]
    ensures Plain([unit.Shown()]) == [Raw(unit.Shown())]
  {}

  lemma EmptyLedger(start: Place)
    ensures
      var l := Ledger(start, [], 0, 0);
      && l.Ordered() && l.Stored() == "" && l.StoredLex() == [] && l.Unread() == ""
      && l.PlaceAt(0) == start && Len(l.Stored()[..0]) == 0
      && After(start, []) == start && RawWidths(l.units[l.dropped..]) == []
  {}

  lemma SingleWidths(l: Ledger, unit: Unit)
    requires l.Ordered()
    ensures RawWidths(l.units[l.dropped..] + [unit])
         == RawWidths(l.units[l.dropped..]) + [unit.width] + Zeros(Width(unit.Shown()) - 1)
  {
    RawWidthsConcat(l.units[l.dropped..], [unit]);
    assert RawWidths([unit]) == [unit.width] + Zeros(Width(unit.Shown()) - 1);
  }

  lemma AfterOne(l: Ledger, unit: Unit)
    ensures After(l.start, l.units + [unit])
         == Place(After(l.start, l.units).byteIndex + unit.width, Step(After(l.start, l.units).at, unit.Shown()))
  {
    AfterConcat(l.start, l.units, [unit]);
    assert Characters([unit]) == [unit.Shown()];
    assert RawSum([unit]) == unit.width + RawSum([]);
    var at := After(l.start, l.units).at;
    assert Advance(at, [unit.Shown()]) == Advance(Step(at, unit.Shown()), "");
  }

  lemma WholeUnread(l: Ledger)
    requires l.Ordered()
    ensures
      var rest := l.Unread();
      && l.consumed + |rest| == |l.units| && l.PlaceAt(|rest|) == After(l.start, l.units)
      && l.RawBetween(|rest|, |rest|) == 0
      && IsBoundary(rest, Len(rest)) && CharIndex(rest, Len(rest)) == |rest|
  {
    hide Len, After, RawSum;
    StoredSplits(l);
    var rest := l.Unread();
    assert rest[..|rest|] == rest && l.units[..|l.units|] == l.units;
    CharIndexAt(rest, |rest|);
    EmptyWindow(l, |rest|);
  }

  lemma EmptyWindow(l: Ledger, i: nat)
    requires l.Ordered() && l.consumed + i <= |l.units|
    ensures l.RawBetween(i, i) == 0
  {
    assert l.units[l.consumed + i..l.consumed + i] == [];
  }

  /** Compaction drops exactly the consumed characters' entries of the width table. */
  lemma DroppedWidths(l: Ledger)
    requires l.Ordered()
    ensures
      var n := l.consumed - l.dropped;
      var kept := l.(dropped := l.consumed);
      && Len(l.Stored()[..n]) <= |RawWidths(l.units[l.dropped..])|
      && RawWidths(l.units[l.dropped..])[Len(l.Stored()[..n])..] == RawWidths(l.units[l.consumed..])
      && kept.Ordered() && kept.Stored() == l.Stored()[n..] && kept.StoredLex() == l.StoredLex()[n..]
      && Len(kept.Stored()[..0]) == 0
  {
    hide RawWidths, Len, Advance;
    var stored := l.units[l.dropped..];
    var n := l.consumed - l.dropped;
    RawWidthsSlice(stored, n, |stored|);
    assert stored[n..|stored|] == stored[n..] == l.units[l.consumed..];
    assert Characters(stored)[..|stored|] == Characters(stored);
    StoredSplits(l);
    LexSlice(stored, n);
    NothingConsumed(l.(dropped := l.consumed).Stored());
  }

  lemma LexSlice(units: seq<Unit>, n: nat)
    requires n <= |units|
    ensures Lex(units)[n..] == Lex(units[n..])
  {}

  lemma NothingConsumed(text: string)
    ensures Len(text[..0]) == 0
  {
    assert text[..0] == "";
  }
}
