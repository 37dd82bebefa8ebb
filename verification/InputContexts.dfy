/** The raw window an adapter keeps (encoding.rs): one owner for text and raw bytes while the input is
    native, separate owners afterwards, and the same window, text and positions throughout. */
module InputContexts {
  import opened Unicode
  import opened Wrappers
  import opened Errors
  import opened Names
  import opened Lexical
  import opened Sources
  import opened Codecs
  import opened SourceClass
  import opened Detection
  import opened Decoding
  import opened DecoderClass
  import opened Sessions
  import opened Turns

  // ------------------------------------------------------------------ valid text

  lemma {:induction false} DecodedBytes(codec: Codec, bytes: seq<Byte>)
    requires codec.encoding == Utf8Encoding
    ensures
      var d := Decode(codec, bytes);
      !d.failed && d.rest == [] ==> Utf8(Characters(d.units)) == bytes
    decreases |bytes|
  {
    hide NextUtf8, Encode, Width;
    NextProgress(codec, bytes);
    var next := NextUtf8(bytes);
    if next.Found? {
      NextUtf8Sound(bytes);
      var later := Decode(codec, bytes[next.width..]);
      DecodedBytes(codec, bytes[next.width..]);
      var all := Decode(codec, bytes).units;
      assert all == [next.unit] + later.units;
      assert Characters(all)[0] == next.unit.lex.c && Characters(all)[1..] == Characters(later.units);
      assert bytes == bytes[..next.width] + bytes[next.width..];
    } else {
      NoCharacters();
    }
  }

  lemma NoCharacters()
    ensures Characters([]) == "" && Utf8("") == []
  {}

  /** `str::from_utf8` accepts exactly the encodings of texts, and gives the text back. */
  lemma TextExactly(bytes: seq<Byte>, s: string)
    ensures Text(bytes) == Some(s) <==> Utf8(s) == bytes
  {
    hide Codecs.Decode, Utf8;
    var codec := Codec(Utf8Encoding, [], _ => 0, FifthEdition);
    DecodedBytes(codec, bytes);
    if Utf8(s) == bytes {
      Utf8RoundTrip(codec, s);
      assert Characters(FixedUnits(Utf8Encoding, s)) == s;
    }
  }

  lemma FromUtf8Text(bytes: seq<Byte>, s: string)
    requires Text(bytes) == Some(s)
    ensures FromUtf8(bytes) == (s, |bytes|, false)
  {
    hide Codecs.Decode;
  }

  lemma SplitText(s: string, k: nat)
    requires k <= |s|
    ensures Len(s[..k]) <= |Utf8(s)|
    ensures Utf8(s)[Len(s[..k])..] == Utf8(s[k..]) && Utf8(s)[..Len(s[..k])] == Utf8(s[..k])
  {
    hide Utf8, Len;
    LenSplit(s, k);
    Utf8Concat(s[..k], s[k..]);
    assert s[..k] + s[k..] == s;
    Halves(Utf8(s[..k]), Utf8(s[k..]));
  }

  lemma Halves(a: seq<Byte>, b: seq<Byte>)
    ensures (a + b)[..|a|] == a && (a + b)[|a|..] == b
  {}

  lemma MarkEncoded()
    ensures Encode('\U{FEFF}') == UTF8_BOM && Width('\U{FEFF}') == 3
  {}

  /** A text whose bytes start with the mark starts with its character. */
  lemma MarkFirst(s: string)
    requires StartsWith(Utf8(s), UTF8_BOM)
    ensures s != "" && s[0] == '\U{FEFF}' && Len(s[..1]) == 3
    ensures FixedUnits(Utf8Encoding, s)[..1] == [MARK]
  {
    hide NextUtf8, StartsWith;
    var bytes := Utf8(s);
    MarkWithin(bytes);
    assert s != "";
    NextUtf8Encode(s[0], Utf8(s[1..]));
    MarkEncoded();
    NextUtf8Encode('\U{FEFF}', bytes[3..]);
    assert s[..1] == [s[0]] && Len([s[0]]) == Width(s[0]) + Len("");
  }

  /** Detection chooses UTF-8 only with or without its own byte order mark. */
  lemma ChosenUtf8(settings: Settings, bytes: seq<Byte>, final: bool)
    ensures
      var choice := Detect(settings, bytes, final);
      choice.Chosen? && choice.encoding == Utf8Encoding ==>
        choice.skip == 0 || (choice.skip == 3 && StartsWith(bytes, UTF8_BOM))
  {
    hide StartsWith, CommitsLatin1, Named;
  }

  // ------------------------------------------------------------------- forgetting

  /** Where a window starts after forgetting. */
  function WindowStart(start: nat, retainFrom: nat, length: nat): nat {
    Max(start, Min(retainFrom, length))
  }

  /** The bytes of a text that ends with the input, and the characters dropped before it. */
  predicate Spells(l: Ledger, received: seq<Byte>, physical: nat) {
    && l.Ordered() && physical <= |received| && physical == Len(Characters(l.units)[..l.dropped])
    && Utf8(l.Stored()) == received[physical..]
  }

  /** Dropping whole characters before a gap that the cursor has passed. */
  lemma Forgotten(l: Ledger, received: seq<Byte>, physical: nat, gap: nat)
    requires Spells(l, received, physical) && gap <= Len(l.Stored()[..l.consumed - l.dropped])
    ensures
      var n, k := l.consumed - l.dropped, FloorBoundary(l.Stored(), gap);
      var kept := l.(dropped := l.dropped + k);
      && k <= n && Len(l.Stored()[..k]) <= gap && Spells(kept, received, physical + Len(l.Stored()[..k]))
      && kept.Stored() == l.Stored()[k..] && kept.StoredLex() == l.StoredLex()[k..]
      && Len(kept.Stored()[..n - k]) == Len(l.Stored()[..n]) - Len(l.Stored()[..k])
  {
    hide Len, Utf8, FloorBoundary, Characters;
    var n, k := l.consumed - l.dropped, FloorBoundary(l.Stored(), gap);
    FloorExact(l.Stored(), gap);
    FloorBefore(l.Stored(), n, k, gap);
    StoredFrom(l, k);
    OffsetsIncrease(l.Stored(), k, n);
    assert l.Stored()[k..n] == l.Stored()[k..][..n - k];
    SplitText(l.Stored(), k);
    OffsetAfter(l, k);
    assert received[physical..][Len(l.Stored()[..k])..] == received[physical + Len(l.Stored()[..k])..];
  }

  lemma StoredFrom(l: Ledger, k: nat)
    requires l.Ordered() && k <= l.consumed - l.dropped
    ensures
      var kept := l.(dropped := l.dropped + k);
      kept.Stored() == l.Stored()[k..] && kept.StoredLex() == l.StoredLex()[k..]
  {
    assert l.units[l.dropped..][k..] == l.units[l.dropped + k..];
    LexSlice(l.units[l.dropped..], k);
  }

  lemma OffsetAfter(l: Ledger, k: nat)
    requires l.Ordered() && k <= l.consumed - l.dropped
    ensures Len(Characters(l.units)[..l.dropped + k]) == Len(Characters(l.units)[..l.dropped]) + Len(l.Stored()[..k])
  {
    OffsetsIncrease(Characters(l.units), l.dropped, l.dropped + k);
    assert Characters(l.units)[l.dropped..l.dropped + k] == l.Stored()[..k];
  }

  lemma FloorZero(text: string)
    ensures FloorBoundary(text, 0) == 0 && Len(text[..0]) == 0 && text[0..] == text
  {
    assert text[..0] == "";
  }

  /** In native text the original bytes before the cursor are the dropped and the stored ones. */
  lemma NativeOffset(source: Source, received: seq<Byte>, physical: nat)
    requires source.Valid() && source.encoding == Utf8Encoding && source.ledger.start == Origin(0)
    requires Spells(source.ledger, received, physical)
    ensures source.rawIndex == physical + source.cursor <= |received|
  {
    hide LexicalBuffer.Buffer.Valid, Len, RawSum, Utf8, Positions.Advance, Characters;
    var l := source.ledger;
    FixedPrefix(l.units, l.consumed);
    FixedUtf8(Utf8Encoding, l.units[..l.consumed]);
    OffsetAfter(l, l.consumed - l.dropped);
    CharactersPrefix(l.units, l.consumed);
    LenSplit(l.Stored(), l.consumed - l.dropped);
    assert l.units[..l.consumed + 0] == l.units[..l.consumed];
  }

  lemma FixedPrefix(units: seq<Unit>, k: nat)
    requires k <= |units| && Fixed(Utf8Encoding, units)
    ensures Fixed(Utf8Encoding, units[..k])
  {}

  lemma CharactersPrefix(units: seq<Unit>, k: nat)
    requires k <= |units|
    ensures Characters(units)[..k] == Characters(units[..k])
  {}

  // ---------------------------------------------------------------------- window

  class InputContext {
    var raw: seq<Byte>
    var start: nat
    var physicalStart: nat
    var native: bool
    /** Every byte of input so far. */
    ghost var received: seq<Byte>

    /** The window ends with the input, whoever owns its bytes. */
    ghost predicate Window(s: Source)
      reads this, s, s.text
    {
      && start <= |received|
      && if native then physicalStart <= start && Utf8(s.text.text) == received[physicalStart..]
         else raw == received[start..]
    }

    /** `view` */
    function View(s: Source): (v: (seq<Byte>, nat))
      requires Window(s)
      reads this, s, s.text
      ensures v == (received[start..], start)
    {
      if native then (Utf8(s.text.text)[start - physicalStart..], start) else (raw, start)
    }

    /** Detection has not released the text: the cursor hides all of it, and nothing is unread. */
    ghost predicate Staged(d: Decoder, s: Source)
      reads this, d, d.detection, s, s.text
    {
      Hidden(d, s) && d.detection.Remembers(received)
    }

    ghost predicate Hidden(d: Decoder, s: Source)
      reads this, s, s.text, d`encoding, d`received, d`pending, d`pendingCursor, d`conversion, d`installed, d`customMap
    {
      && native && Window(s) && start == physicalStart == 0 && s.retainNativeInput
      && d.encoding.None? && d.received == received
      && d.pending == [] && d.pendingCursor == 0 && d.conversion.None? && !d.installed && d.customMap == []
      && s.anchor.None? && s.encoding == Utf8Encoding && s.text.Valid() && s.text.Contents() == Plain(s.text.text)
      && s.cursor == Len(s.text.text) && s.ledger == Ledger(Origin(0), [], 0, 0) && s.Here() == Origin(0)
    }

    /** The text is released: it is what a decoder that was fed all the input would have stored. */
    ghost predicate Released(d: Decoder, s: Source)
      reads this, d, d.detection, s, s.text
    {
      && native && Window(s) && start <= s.rawIndex && s.retainNativeInput
      && d.encoding == Some(Utf8Encoding) && d.received == received && d.skip == 0 && d.pending == [] && d.Valid(s)
      && Spells(s.ledger, received, physicalStart)
    }

    /** `InputContext::new`: native unless the decoder is already committed to something else. */
    constructor (d: Decoder, s: Source)
      requires d.Valid(s) && d.received == [] && s.ledger.consumed == s.ledger.dropped == 0
      requires d.encoding.None? ==> s.encoding == Utf8Encoding
      modifies s`retainNativeInput
      ensures Window(s) && received == [] && start == 0 && d.Valid(s)
      ensures native == (d.encoding.None? || (d.encoding == Some(Utf8Encoding) && d.pending == [] && d.conversion.None?))
      ensures native && d.encoding.None? ==> Staged(d, s)
      ensures native && d.encoding.Some? ==> Released(d, s)
    {
      hide Source.Valid, Spells, Len, Utf8, Codecs.Decode, NextOf, Detect, Detector.Remembers, Decoder.Selected;
      hide Decoder.CodecNow;
      raw, start, physicalStart, received := [], 0, 0, [];
      native := (d.encoding.None? || d.encoding == Some(Utf8Encoding)) && d.pending == [] && d.pendingCursor == 0
                && d.conversion.None?;
      new;
      NothingStored(d, s);
      NoCharacters();
      s.Retain(native);
    }

    /** `preserve`: publish the input and forget what may be forgotten. True: the bytes were text and
        are input already. False: the window is separate, and the decoder and its source are as plain
        ones that are about to be fed these bytes. */
    method Preserve(d: Decoder, s: Source, bytes: seq<Byte>, retainFrom: nat) returns (handled: bool)
      requires Window(s) && retainFrom <= s.rawIndex
      requires native ==> (Staged(d, s) || Released(d, s)) && !d.finalSeen
      modifies this, d`received, d`pending, d`finalSeen, s, s.text
      ensures received == old(received) + bytes && start == WindowStart(old(start), retainFrom, |old(received)|)
      ensures Window(s) && handled == native == (old(native) && Text(bytes).Some?)
      ensures handled ==> !d.finalSeen && if d.encoding.None? then Staged(d, s) else Released(d, s)
      ensures !handled && old(native) ==> d.Valid(s) && d.received == old(received) && !d.finalSeen && !d.installed
      ensures !handled && !old(native) ==> unchanged(d) && unchanged(s) && unchanged(s.text)
      ensures !handled ==> s.ledger.units == old(s.ledger.units)
      ensures s.ledger.consumed == old(s.ledger.consumed) && s.ledger.start == old(s.ledger.start)
    {
      hide Utf8, Detect, Text, Detector.Remembers, IsBoundary, Len, Spells, Source.Valid, Decoder.Valid;
      var window := |View(s).0|;
      var ahead := if retainFrom > start then retainFrom - start else 0;
      var discard := if ahead < window then ahead else window;
      start := start + discard;
      if native {
        ForgetText(d, s);
        var text := Text(bytes);
        if text.Some? {
          Append(d, s, bytes, text.value);
          return true;
        }
        Separate(d, s, bytes);
      } else {
        raw := raw[discard..] + bytes;
        received := received + bytes;
      }
      handled := false;
    }

    /** Drop whole characters in front of the window. */
    method ForgetText(d: Decoder, s: Source)
      requires Staged(d, s) || Released(d, s)
      modifies this`physicalStart, s`cursor, s`ledger, s.text
      ensures (if d.encoding.None? then Staged(d, s) else Released(d, s)) && s.ledger.units == old(s.ledger.units)
      ensures s.ledger.consumed == old(s.ledger.consumed) && s.ledger.start == old(s.ledger.start)
    {
      hide Utf8, Len, Detect, Codecs.Decode, NextOf, FloorBoundary, Spells, Decoder.Follows, Source.Valid;
      hide Decoder.Valid, Plain, InputContext.Released, Detector.Remembers, IsBoundary, CharIndex, Lexical.Shown, Walk, Fixed;
      WhichState(this, d, s);
      var gap := start - physicalStart;
      var k := FloorBoundary(s.text.text, gap);
      var physical := Len(s.text.text[..k]);
      ghost var l := s.ledger;
      CharIndexAt(s.text.text, k);
      if d.encoding.None? { NothingAhead(s.text); } else { CharactersAhead(this, d, s, k, physical); }
      s.text.DiscardPrefix(physical);
      s.cursor, physicalStart := s.cursor - physical, physicalStart + physical;
      if d.encoding.Some? {
        s.ledger := l.(dropped := l.dropped + k);
        StillFollows(d, s.encoding, l, s.ledger);
        ReleasedAgain(this, d, s);
      }
    }

    /** Valid text is input and its own decoding. Detection keeps it hidden behind the cursor. */
    method Append(d: Decoder, s: Source, bytes: seq<Byte>, text: string)
      requires (Staged(d, s) || Released(d, s)) && Text(bytes) == Some(text) && !d.finalSeen
      modifies this`received, d`received, d`finalSeen, s, s.text
      ensures received == old(received) + bytes && !d.finalSeen
      ensures if d.encoding.None? then Staged(d, s) else Released(d, s)
      ensures s.ledger.consumed == old(s.ledger.consumed) && s.ledger.start == old(s.ledger.start)
    {
      hide Utf8, Len, Detect, Codecs.Decode, NextOf, Spells, Decoder.Follows, Decoder.Settled, Source.Valid;
      hide Plain, Text, FromUtf8, InputContext.Released, Detector.Remembers, IsBoundary, Lexical.Shown, Walk, Characters, NativeText;
      WhichState(this, d, s);
      if d.encoding.None? {
        BytesAppended(received, bytes, s.text.text, text);
        d.detection.Keeps(received, bytes);
        PlainConcat(s.text.text, text);
        s.text.PushStr(text);
        s.cursor := Len(s.text.text);
        d.received, received := d.received + bytes, received + bytes;
      } else {
        ghost var l := s.ledger;
        ReleasedParts(this, d, s);
        FromUtf8Text(bytes, text);
        d.FeedDirect(bytes, text, false, s);
        received := received + bytes;
        DroppedStay(l.units, s.ledger.units, l.dropped);
        ReleasedFrom(this, d, s);
      }
    }

    /** `separate`: from now on the window owns its bytes; staged bytes go to the decoder. */
    method Separate(d: Decoder, s: Source, bytes: seq<Byte>)
      requires Hidden(d, s) || Released(d, s)
      modifies this`raw, this`native, this`received, d`pending, s`cursor, s`retainNativeInput, s.text
      ensures !native && received == old(received) + bytes && start <= |received| && raw == received[start..]
      ensures s.Valid() && s.anchor.None? && !d.installed && s.ledger == old(s.ledger) && d.received == old(received)
      ensures d.encoding.None? ==>
        && d.pending == old(received) && d.pendingCursor == 0 && d.conversion.None? && d.customMap == []
        && s.ledger == Ledger(Origin(0), [], 0, 0)
      ensures d.encoding.Some? || d.detection.Remembers(old(received)) ==> d.Valid(s)
    {
      hide Utf8, Len, Detect, Codecs.Decode, NextOf, Spells, Decoder.Follows, Source.Valid, Plain;
      hide InputContext.Released, Detector.Remembers, IsBoundary, Lexical.Shown, Walk, Characters, NativeText;
      WhichHidden(this, d, s);
      WindowBytes(this, s);
      var history := View(s).0;
      assert history + bytes == (received + bytes)[start..];
      if d.encoding.None? {
        NothingDecoded(this, d, s);
        d.pending := d.pending + Utf8(s.text.text);
        BoundaryZero(s.text.text);
        s.text.Truncate(0);
        s.cursor := 0;
        StagedGone(d, s);
      } else {
        ReleasedParts(this, d, s);
      }
      raw, native, received := history + bytes, false, received + bytes;
      s.Retain(false);
    }

    /** `decode`: detection on the staged text. UTF-8 releases it in place; any other outcome separates
        the window, and the decoder goes on as one that detected this itself. */
    method Decode(d: Decoder, s: Source, final: bool) returns (error: Option<ErrorKind>)
      requires native && (Staged(d, s) || Released(d, s)) && !d.finalSeen
      modifies this`raw, this`native, this`received, s, s.text, d.detection
      modifies d`encoding, d`pending, d`pendingCursor, d`conversion, d`received, d`mark, d`skip, d`finalSeen
      ensures Window(s) && received == old(received) && start == old(start)
      ensures d.received == received && d.finalSeen == final && !d.installed
      ensures
        var choice := Detect(d.detection.settings, received, final);
        native == (choice.Undetermined? || (choice.Chosen? && choice.encoding == Utf8Encoding))
      ensures native ==> error.None? && if d.encoding.None? then Staged(d, s) else Released(d, s)
      ensures native && d.encoding.None? ==> Detect(d.detection.settings, received, final).Undetermined?
      ensures !native && d.encoding.None? ==> d.NotChosen(s, error)
      ensures d.encoding.Some? && d.conversion.None? ==> d.Settled(s, error)
      ensures d.encoding.Some? && d.conversion.Some? ==> error.None?
      ensures !native && error.None? ==> d.Valid(s)
      ensures native && d.encoding.None? ==> !final
      ensures !native || d.encoding.Some? ==> s.Valid()
      ensures old(d.encoding).Some? ==> native && s.ledger == old(s.ledger) && d.encoding == old(d.encoding)
      ensures !native ==> s.ledger.consumed == 0
      ensures old(d.encoding).None? && d.encoding.Some? ==>
        s.ledger.start == Origin(d.skip) && s.ledger.consumed == if d.mark == d.skip then 0 else 1
    {
      hide Utf8, Len, Detect, NextOf, Spells, Decoder.Follows, Decoder.Settled, Source.Valid, Plain, StartsWith;
      hide InputContext.Released, InputContext.Hidden, Detector.Remembers, IsBoundary, Characters, NativeText;
      WhichState(this, d, s);
      if d.encoding == Some(Utf8Encoding) {
        ReleasedParts(this, d, s);
        d.Note(final, s);
        ReleasedFrom(this, d, s);
        ReleasedSettled(this, d, s);
        ReleasedChosen(this, d, s);
        return None;
      }
      HiddenParts(this, d, s);
      d.finalSeen := final;
      var choice := d.detection.DetectNow(Utf8(s.text.text), final);
      match choice {
        case Undetermined => error := None;
        case Rejected(kind, _, _) =>
          Separate(d, s, []);
          error := Some(kind);
        case Chosen(e, skip) =>
          if e == Utf8Encoding {
            Release(d, s, skip);
            error := None;
          } else {
            error := HandOver(d, s, e, skip, final);
          }
      }
    }

    /** UTF-8: the cursor moves behind the mark, and the text is what a decoder would have stored. */
    method Release(d: Decoder, s: Source, skip: nat)
      requires Hidden(d, s) && Detect(d.detection.settings, received, d.finalSeen) == Chosen(Utf8Encoding, skip)
      modifies s, d`encoding, d`mark, d`skip
      ensures d.encoding == Some(Utf8Encoding) && d.mark == skip && d.skip == 0
      ensures Released(d, s) && d.Settled(s, None) && s.Valid()
      ensures s.ledger.start == Origin(0) && s.ledger.consumed == if skip == 0 then 0 else 1
    {
      hide *;
      ghost var l := ReleasedLedger(s.text.text, skip);
      ReleasedUnits(this, d, s, skip);
      s.encoding, s.rawIndex, s.column, s.cursor := Utf8Encoding, skip, if skip != 0 then 1 else 0, skip;
      s.ledger := l;
      d.encoding, d.mark, d.skip := Some(Utf8Encoding), skip, 0;
      ReleasedHere(this, d, s, skip);
    }

    /** Any other encoding: the detection is not repeated, and the decoder reads what was staged. */
    method HandOver(d: Decoder, s: Source, e: Encoding, skip: nat, final: bool) returns (error: Option<ErrorKind>)
      requires Hidden(d, s) && d.finalSeen == final
      requires Detect(d.detection.settings, received, final) == Chosen(e, skip) && e != Utf8Encoding
      modifies this`raw, this`native, this`received, s, s.text, d.detection
      modifies d`encoding, d`pending, d`pendingCursor, d`conversion, d`received, d`mark, d`skip, d`finalSeen
      ensures !native && Window(s) && received == old(received)
      ensures d.received == received && d.finalSeen == final && !d.installed && d.encoding == Some(e)
      ensures d.conversion.None? ==> d.Settled(s, error)
      ensures d.conversion.Some? ==> error.None?
      ensures error.None? ==> d.Valid(s)
      ensures s.Valid() && d.skip == d.mark && s.ledger.start == Origin(d.skip) && s.ledger.consumed == 0
    {
      hide Utf8, Len, Detect, NextOf, Spells, Decoder.Settled, Source.Valid, StartsWith, Codecs.Decode;
      hide Decoder.Valid, Detector.Remembers, Plain;
      Separate(d, s, []);
      assert old(received) + [] == old(received);
      DetectedCodec(d.detection.settings, received, final);
      s.Select(e, skip);
      d.encoding, d.mark, d.skip, d.pending := Some(e), skip, skip, d.pending[skip..];
      Started(d, s, e, skip);
      var roomy: bool := *;
      error := d.Feed([], final, roomy, s);
      StartsBehindMark(d, s, error);
    }
  }

  lemma StartsBehindMark(d: Decoder, s: Source, error: Option<ErrorKind>)
    requires d.encoding.Some? && (d.Valid(s) || d.Settled(s, error))
    ensures s.ledger.start == Origin(d.skip)
  {
    hide Source.Valid, Detect, Codecs.Decode, NextOf, Progress;
  }

  lemma HiddenParts(c: InputContext, d: Decoder, s: Source)
    requires c.Staged(d, s)
    ensures Utf8(s.text.text) == c.received && c.Hidden(d, s) && c.start == 0
  {
    assert c.received[0..] == c.received;
  }

  /** A released text is settled: everything was stored, and there is no error. */
  lemma ReleasedSettled(c: InputContext, d: Decoder, s: Source)
    requires c.Released(d, s)
    ensures d.Settled(s, None)
  {
    hide Source.Valid, Utf8, Len, Codecs.Decode, Detect, NextOf, Spells;
    assert d.Unread() == [];
    DecodeNothing(d.CodecNow());
    ProgressEnds(d.CodecNow(), c.received[0..], s.ledger.units, []);
  }

  lemma ReleasedChosen(c: InputContext, d: Decoder, s: Source)
    requires c.Released(d, s)
    ensures Detect(d.detection.settings, d.received, d.finalSeen) == Chosen(Utf8Encoding, d.mark)
  {
    hide Source.Valid, Utf8, Len, Codecs.Decode, Detect, NextOf, Spells;
  }

  /** The staged text, with the mark consumed. */
  ghost function ReleasedLedger(text: string, skip: nat): Ledger {
    Ledger(Origin(0), FixedUnits(Utf8Encoding, text), if skip == 0 then 0 else 1, 0)
  }

  /** What releasing finds. */
  lemma ReleasedUnits(c: InputContext, d: Decoder, s: Source, skip: nat)
    requires c.Hidden(d, s) && Detect(d.detection.settings, c.received, d.finalSeen) == Chosen(Utf8Encoding, skip)
    ensures skip == 0 || (skip == 3 && StartsWith(c.received, UTF8_BOM))
    ensures
      var l := ReleasedLedger(s.text.text, skip);
      && l.Ordered() && l.dropped == 0 && l.consumed <= |l.Stored()| && l.Stored() == s.text.text
      && l.StoredLex() == s.text.Contents() && Fixed(Utf8Encoding, l.units)
      && skip == Len(l.Stored()[..l.consumed]) && l.PlaceAt(0) == Origin(skip) && Len(Characters(l.units)[..0]) == 0
      && l.start == Origin(0) && l.consumed == (if skip == 0 then 0 else 1)
      && Progress(Codec(Utf8Encoding, d.customMap, d.converter, d.rules), c.received, l.units, [])
    ensures Origin(skip) == Place(skip, Positions.Coordinates(s.line, if skip != 0 then 1 else 0, s.previousCr))
    ensures c.native && c.start == c.physicalStart == 0 && s.retainNativeInput && s.anchor.None? && s.text.Valid()
    ensures d.received == c.received && d.pending == [] && d.pendingCursor == 0 && d.conversion.None? && !d.installed
    ensures d.customMap == []
  {
    hide Utf8, Len, Detect, StartsWith, Codecs.Decode, Positions.Advance, RawSum, After;
    var text := s.text.text;
    assert c.received[0..] == c.received;
    ChosenUtf8(d.detection.settings, c.received, d.finalSeen);
    StagedLedger(text);
    if skip != 0 { MarkFirst(text); AfterMark(); }
    Utf8RoundTrip(Codec(Utf8Encoding, d.customMap, d.converter, d.rules), text);
    DecodeNothing(Codec(Utf8Encoding, d.customMap, d.converter, d.rules));
    assert FixedUnits(Utf8Encoding, text) + [] == FixedUnits(Utf8Encoding, text);
  }

  lemma ReleasedHere(c: InputContext, d: Decoder, s: Source, skip: nat)
    requires c.native && c.start == c.physicalStart == 0 && s.retainNativeInput && s.anchor.None? && s.text.Valid()
    requires d.received == c.received && d.pending == [] && d.pendingCursor == 0 && d.conversion.None? && !d.installed
    requires d.customMap == [] && d.encoding == Some(Utf8Encoding) && d.mark == skip && d.skip == 0
    requires Detect(d.detection.settings, c.received, d.finalSeen) == Chosen(Utf8Encoding, skip)
    requires skip == 0 || (skip == 3 && StartsWith(c.received, UTF8_BOM))
    requires s.encoding == Utf8Encoding && s.cursor == skip && s.rawIndex == skip
    requires Origin(skip) == Place(skip, Positions.Coordinates(s.line, s.column, s.previousCr))
    requires
      var l := s.ledger;
      && l.Ordered() && l.dropped == 0 && l.consumed <= |l.Stored()| && l.Stored() == s.text.text
      && l.StoredLex() == s.text.Contents() && Fixed(Utf8Encoding, l.units)
      && skip == Len(l.Stored()[..l.consumed]) && l.PlaceAt(0) == Origin(skip) && Len(Characters(l.units)[..0]) == 0
      && l.start == Origin(0) && l.consumed == (if skip == 0 then 0 else 1)
      && Progress(Codec(Utf8Encoding, d.customMap, d.converter, d.rules), c.received, l.units, [])
    ensures c.Released(d, s) && d.Settled(s, None) && s.Valid()
  {
    hide Utf8, Len, Detect, StartsWith, Codecs.Decode, RawSum, After, Source.Valid, Spells, Characters;
    assert c.received[0..] == c.received && d.Unread() == [];
    Parts(s);
    ReleasedFrom(c, d, s);
    ReleasedSettled(c, d, s);
  }

  lemma StagedLedger(text: string)
    ensures
      var units := FixedUnits(Utf8Encoding, text);
      && Characters(units[0..]) == text && Lex(units[0..]) == Plain(text) && Fixed(Utf8Encoding, units)
      && Len(text[..0]) == 0 && Len(Characters(units)[..0]) == 0 && After(Origin(0), units[..0]) == Origin(0)
  {
    hide Len, After, EncodedWidth;
    var units := FixedUnits(Utf8Encoding, text);
    assert units[0..] == units;
    FixedLex(Utf8Encoding, text);
    NothingConsumed(text);
    assert units[..0] == [] && Characters(units) == text;
    FixedExtended(Utf8Encoding, [], text);
    assert [] + units == units;
    EmptyLedger(Origin(0));
  }

  lemma WhichState(c: InputContext, d: Decoder, s: Source)
    requires c.Staged(d, s) || c.Released(d, s)
    ensures c.native && c.physicalStart <= c.start && s.text.Valid() && c.Window(s)
    ensures if d.encoding.None? then c.Staged(d, s) else c.Released(d, s) && d.encoding == Some(Utf8Encoding)
  {
    hide Codecs.Decode, Detect, Detector.Remembers, Utf8, Spells, Decoder.Follows;
  }

  lemma WindowBytes(c: InputContext, s: Source)
    requires c.Window(s)
    ensures c.start <= |c.received| && c.View(s).0 == c.received[c.start..]
  {}

  lemma BytesAppended(received: seq<Byte>, bytes: seq<Byte>, text: string, more: string)
    requires Utf8(text) == received && Text(bytes) == Some(more)
    ensures Utf8(text + more) == received + bytes && (received + bytes)[0..] == received + bytes
  {
    hide Utf8, Text;
    TextExactly(bytes, more);
    Utf8Concat(text, more);
  }

  lemma PlainConcat(a: string, b: string)
    ensures Plain(a) + Plain(b) == Plain(a + b)
  {}

  lemma DroppedStay(was: seq<Unit>, now: seq<Unit>, dropped: nat)
    requires was <= now && dropped <= |was|
    ensures Len(Characters(now)[..dropped]) == Len(Characters(was)[..dropped])
  {
    assert Characters(now)[..dropped] == Characters(was)[..dropped];
  }

  /** What the released text amounts to. */
  lemma ReleasedParts(c: InputContext, d: Decoder, s: Source)
    requires c.Released(d, s)
    ensures c.native && c.physicalStart <= c.start <= s.rawIndex && s.retainNativeInput
    ensures d.encoding == Some(Utf8Encoding) && d.received == c.received && d.skip == 0 && d.pending == [] && d.Valid(s)
    ensures s.ledger.Ordered() && c.physicalStart == Len(Characters(s.ledger.units)[..s.ledger.dropped]) && !d.installed
  {
    hide Source.Valid, Codecs.Decode, Detect, NextOf, Utf8, Len;
  }

  /** A valid UTF-8 decoder without pending bytes has stored a text that spells its whole input. */
  lemma ReleasedFrom(c: InputContext, d: Decoder, s: Source)
    requires c.native && c.physicalStart <= c.start <= s.rawIndex && s.retainNativeInput
    requires d.encoding == Some(Utf8Encoding) && d.received == c.received && d.skip == 0 && d.pending == [] && d.Valid(s)
    requires s.ledger.Ordered() && c.physicalStart == Len(Characters(s.ledger.units)[..s.ledger.dropped])
    ensures c.Released(d, s)
  {
    hide Source.Valid, Utf8, Len, Codecs.Decode, Detect, NextOf, Spells;
    assert d.Unread() == [] && c.received[0..] == c.received;
    DecodeNothing(d.CodecNow());
    ProgressEnds(d.CodecNow(), c.received, s.ledger.units, []);
    DecodedBytes(d.CodecNow(), c.received);
    UnitsSpell(s.ledger, c.received, c.physicalStart);
    SpelledText(s.ledger, c.received, c.physicalStart);
    NativeOffset(s, c.received, c.physicalStart);
    Parts(s);
  }

  lemma UnitsSpell(l: Ledger, received: seq<Byte>, physical: nat)
    requires l.Ordered() && Utf8(Characters(l.units)) == received && physical == Len(Characters(l.units)[..l.dropped])
    ensures Spells(l, received, physical)
  {
    hide Utf8, Len;
    SplitText(Characters(l.units), l.dropped);
    assert Characters(l.units)[l.dropped..] == l.Stored();
  }

  lemma NothingDecoded(c: InputContext, d: Decoder, s: Source)
    requires c.Hidden(d, s)
    ensures Utf8(s.text.text) == c.received && d.pending + Utf8(s.text.text) == c.received
  {
    assert c.received[0..] == c.received;
  }

  /** Staged bytes leave a plain decoder and an empty source behind. */
  lemma StagedGone(d: Decoder, s: Source)
    requires d.encoding.None? && d.received == d.pending && d.pendingCursor == 0 && d.conversion.None?
    requires !d.installed && d.customMap == []
    requires s.anchor.None? && s.encoding == Utf8Encoding && s.text.Valid() && s.text.Contents() == []
    requires s.cursor == 0 && s.ledger == Ledger(Origin(0), [], 0, 0) && s.Here() == Origin(0)
    ensures s.Valid() && (d.detection.Remembers(d.received) ==> d.Valid(s))
  {
    hide Detector.Remembers;
    EmptyLedger(Origin(0));
    assert s.text.text == "";
    Parts(s);
  }

  lemma WhichHidden(c: InputContext, d: Decoder, s: Source)
    requires c.Hidden(d, s) || c.Released(d, s)
    ensures c.native && c.Window(s)
    ensures if d.encoding.None? then c.Hidden(d, s) else c.Released(d, s)
  {
    hide Codecs.Decode, Detect, Detector.Remembers, Utf8, Spells, Decoder.Follows;
  }

  lemma NothingAhead(text: LexicalBuffer.Buffer)
    ensures FloorBoundary(text.text, 0) == 0 && Len(text.text[..0]) == 0
    ensures text.text[0..] == text.text && text.Contents()[0..] == text.Contents()
  {
    FloorZero(text.text);
  }

  /** What forgetting finds in native text. */
  lemma CharactersAhead(c: InputContext, d: Decoder, s: Source, k: nat, physical: nat)
    requires c.Released(d, s) && k == FloorBoundary(s.text.text, c.start - c.physicalStart)
    requires physical == Len(s.text.text[..k])
    ensures d.encoding == Some(Utf8Encoding) && d.received == c.received && d.skip == 0 && d.pending == []
    ensures s.encoding == Utf8Encoding && s.anchor.None? && s.retainNativeInput && s.ledger.start == Origin(0)
    ensures physical <= s.cursor && c.physicalStart + physical <= c.start <= s.rawIndex
    ensures d.Follows(s.encoding, s.ledger) && Fixed(Utf8Encoding, s.ledger.units)
    ensures s.ledger.Ordered() && s.ledger.dropped + k <= s.ledger.consumed
    ensures
      var kept := s.ledger.(dropped := s.ledger.dropped + k);
      && kept.Stored() == s.text.text[k..] && kept.StoredLex() == s.text.Contents()[k..]
      && s.cursor - physical == Len(kept.Stored()[..kept.consumed - kept.dropped])
      && Spells(kept, c.received, c.physicalStart + physical) && s.Here() == kept.PlaceAt(0)
  {
    hide Source.Valid, Utf8, Len, Codecs.Decode, Detect, NextOf, FloorBoundary, Spells, Lexical.Shown, Characters, Fixed;
    NativeOffset(s, c.received, c.physicalStart);
    Parts(s);
    Forgotten(s.ledger, c.received, c.physicalStart, c.start - c.physicalStart);
  }

  /** The fields of a valid source of native text. */
  ghost predicate NativeText(s: Source, l: Ledger)
    reads s, s.text
  {
    && s.text.Valid() && l.Ordered() && s.text.text == l.Stored() && s.text.Contents() == l.StoredLex()
    && s.cursor == Len(l.Stored()[..l.consumed - l.dropped]) && s.Here() == l.PlaceAt(0) && Fixed(Utf8Encoding, l.units)
  }

  lemma Parts(s: Source)
    requires s.encoding == Utf8Encoding && s.anchor.None?
    ensures s.Valid() <==> NativeText(s, s.ledger)
  {
    hide LexicalBuffer.Buffer.Valid, Len, RawSum, Positions.Advance, Characters, RawWidths, Fixed;
  }

  lemma SpelledText(l: Ledger, received: seq<Byte>, physical: nat)
    requires Spells(l, received, physical)
    ensures l.Ordered() && physical <= |received| && Utf8(l.Stored()) == received[physical..]
  {}

  lemma ReleasedAgain(c: InputContext, d: Decoder, s: Source)
    requires c.native && c.physicalStart <= c.start <= s.rawIndex && s.retainNativeInput
    requires d.encoding == Some(Utf8Encoding) && d.received == c.received && d.skip == 0 && d.pending == []
    requires s.encoding == Utf8Encoding && s.anchor.None? && NativeText(s, s.ledger)
    requires d.Follows(s.encoding, s.ledger) && s.ledger.start == Origin(0)
    requires Spells(s.ledger, c.received, c.physicalStart)
    ensures c.Released(d, s)
  {
    hide Source.Valid, Utf8, Len, Codecs.Decode, Detect, NextOf, Decoder.Follows;
    Parts(s);
    NativeOffset(s, c.received, c.physicalStart);
  }

  lemma NothingStored(d: Decoder, s: Source)
    requires d.Valid(s) && d.received == [] && s.ledger.consumed == s.ledger.dropped == 0
    ensures s.ledger.units == [] && s.text.text == "" && s.rawIndex == 0 && s.cursor == 0 && s.Here() == Origin(0)
    ensures s.text.Contents() == [] && s.text.Valid() && Spells(s.ledger, [], 0)
    ensures d.encoding.None? ==> s.ledger == Ledger(Origin(0), [], 0, 0)
    ensures d.encoding.Some? ==> d.skip == 0
  {
    hide Detect, Codecs.Decode, NextOf, Detector.Remembers;
    if d.encoding.Some? {
      assert d.received[d.skip..] == [];
      DecodeNothing(d.CodecNow());
    }
    assert s.ledger.units == [];
    EmptyLedger(Origin(0));
    NoCharacters();
  }
}
