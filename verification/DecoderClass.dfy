/** The stateful decoder (encoding.rs). */
module DecoderClass {
  import opened Unicode
  import opened Wrappers
  import opened Errors
  import opened Names
  import opened Positions
  import opened Lexical
  import opened Sources
  import opened SourceClass
  import opened Codecs
  import opened Detection
  import opened Decoding

  /** Decoding only adds units: it neither consumes nor compacts. */
  predicate Grows(was: Ledger, now: Ledger) {
    && was.units <= now.units && now.consumed == was.consumed && now.dropped == was.dropped
    && (was.units != [] ==> now.start == was.start)
  }

  /** Where the first character behind a byte order mark stands. */
  function Origin(mark: nat): Place { Place(mark, Coordinates(1, if mark != 0 then 1 else 0, false)) }

  class Decoder {
    const detection: Detector
    const rules: NameRules
    /** The application's converter: a function of the sequence it is asked about. */
    ghost const converter: seq<Byte> -> int
    var encoding: Option<Encoding>
    var pending: seq<Byte>
    var pendingCursor: nat
    var customMap: seq<int>
    var conversion: Option<(seq<Byte>, nat)>

    /** Every byte accepted, the length of the byte order mark, how much of it was skipped before
        decoding, and how the encoding was chosen. */
    ghost var received: seq<Byte>
    ghost var mark: nat
    ghost var skip: nat
    ghost var installed: bool
    ghost var finalSeen: bool

    ghost function CodecNow(): Codec
      requires encoding.Some?
      reads this
    {
      Codec(encoding.value, customMap, converter, rules)
    }

    ghost function Unread(): seq<Byte>
      requires pendingCursor <= |pending|
      reads this
    {
      pending[pendingCursor..]
    }

    /** Before an encoding is known every byte is pending. Afterwards the units stored in the source
        and the unread bytes together decode to exactly what all the received bytes decode to. */
    ghost predicate Valid(source: Source)
      reads this, detection, source, source.text
    {
      source.Valid() && source.anchor.None? && Follows(source.encoding, source.ledger)
    }

    /** The decoder's part of it, for a source with this encoding and these units. */
    ghost predicate Follows(chosen: Encoding, ledger: Ledger)
      reads this, detection
    {
      && pendingCursor <= |pending|
      && match encoding
         case None =>
           && pending == received && pendingCursor == 0 && conversion.None? && ledger.units == []
           && ledger.start == Origin(0) && detection.Remembers(pending)
           && !installed && customMap == []
         case Some(e) =>
           && chosen == e && CodecNow().Valid() && skip <= |received|
           && Progress(CodecNow(), received[skip..], ledger.units, Unread())
           && Selected(ledger)
           && (e != MultiByte ==> pendingCursor == 0 && conversion.None?)
           && (conversion.Some? ==> AwaitsAnswer())
    }

    /** How the encoding was chosen, and where its text starts. */
    ghost predicate Selected(ledger: Ledger)
      requires encoding.Some?
      reads this, detection
    {
      && ledger.start == Origin(skip) && (mark == skip || Staged(ledger))
      && (!installed ==> Detect(detection.settings, received, finalSeen) == Chosen(encoding.value, mark))
      && (installed <==> encoding.value == SingleByte || encoding.value == MultiByte)
      && (if installed then encoding.value == CustomEncoding(customMap) else customMap == [])
    }

    /** An adapter's source took the mark as a character, and consumed it, before detection was done. */
    ghost predicate Staged(ledger: Ledger)
      reads this
    {
      && encoding == Some(Utf8Encoding) && skip == 0 && mark == 3 && StartsWith(received, UTF8_BOM)
      && ledger.consumed >= 1
    }

    /** The pending conversion is the sequence at the front of the unread bytes. */
    ghost predicate AwaitsAnswer()
      requires encoding.Some? && conversion.Some? && CodecNow().Valid() && pendingCursor <= |pending|
      reads this
    {
      var (sequence, width) := conversion.value;
      && NextOf(CodecNow(), Unread()) == Next.Conversion(width)
      && 1 <= width <= 4 && width <= |Unread()| && sequence == Padded(Unread()[..width])
    }

    constructor (settings: Settings, rules: NameRules, ghost converter: seq<Byte> -> int, source: Source)
      requires source.Valid() && source.anchor.None? && source.ledger.units == []
      requires source.ledger.start == Origin(0)
      ensures Valid(source) && fresh(detection) && encoding.None? && received == [] && !finalSeen
      ensures detection.settings == settings && this.rules == rules && this.converter == converter
      ensures pending == [] && pendingCursor == 0 && conversion.None? && customMap == [] && !installed
    {
      hide Source.Valid, Decode, Detect, Signature, NextOf;
      detection := new Detector(settings);
      this.rules, this.converter := rules, converter;
      encoding, pending, pendingCursor, customMap, conversion := None, [], 0, [], None;
      received, mark, skip, installed, finalSeen := [], 0, 0, false, false;
    }

    /** What decoding every received byte gives, with the application's answers. */
    ghost function Whole(): Decoded
      requires encoding.Some? && CodecNow().Valid() && skip <= |received|
      reads this
    {
      Decode(CodecNow(), received[skip..])
    }

    /** Everything decodable was stored, and the error is the one the whole input deserves. */
    ghost predicate Settled(source: Source, error: Option<ErrorKind>)
      reads this, detection, source
    {
      && encoding.Some? && CodecNow().Valid() && skip <= |received| && Selected(source.ledger)
      && source.ledger.units == Whole().units && error == FeedError(encoding.value, Whole(), finalSeen)
    }

    /** `feed`: with no conversion pending, the units stored and the error are those of the whole input. */
    method Feed(bytes: seq<Byte>, final: bool, roomy: bool, source: Source) returns (error: Option<ErrorKind>)
      requires Valid(source) && (finalSeen ==> bytes == [] && final)
      modifies this`encoding, this`pending, this`pendingCursor, this`conversion
      modifies this`received, this`mark, this`skip, this`finalSeen, detection, source, source.text
      ensures received == old(received) + bytes && finalSeen == final && installed == old(installed)
      ensures old(encoding).Some? ==> encoding == old(encoding) && skip == old(skip) && mark == old(mark)
      ensures old(encoding).None? && encoding.Some? ==> skip == mark
      ensures encoding.None? ==> NotChosen(source, error)
      ensures encoding.Some? && conversion.None? ==> Settled(source, error)
      ensures encoding.Some? && conversion.Some? ==> error.None?
      ensures error.None? ==> Valid(source)
      ensures source.Valid() && Grows(old(source.ledger), source.ledger)
    {
      hide Decode, Detect, FromUtf8, NextOf, Source.Valid, Detector.Remembers;
      if encoding == Some(Utf8Encoding) && conversion.None? && pending == [] && pendingCursor == 0 && roomy {
        var (text, upTo, bad) := FromUtf8(bytes);
        if !bad && upTo == |bytes| {
          FeedDirect(bytes, text, final, source);
          return None;
        }
      }
      Accept(bytes, final, source);
      if conversion.Some? {
        return None;
      }
      if encoding.None? {
        error := ChooseEncoding(final, source);
        if encoding.None? {
          return;
        }
      }
      error := DecodePending(final, source);
    }

    /** `append_pending`: after a failure further bytes are only kept. */
    method AppendPending(bytes: seq<Byte>)
      modifies this`pending
      ensures pending == old(pending) + bytes
    {
      pending := pending + bytes;
    }

    /** The outcomes of detection that leave the decoder waiting or rejected. */
    ghost predicate NotChosen(source: Source, error: Option<ErrorKind>)
      reads this, detection, source, source.text
    {
      && pending == received && pendingCursor == 0 && conversion.None? && !installed && customMap == []
      && source.Valid() && source.anchor.None? && source.ledger.units == []
      && source.ledger.start == Origin(0)
      && match Detect(detection.settings, received, finalSeen)
         case Undetermined => error == None
         case Rejected(kind, name, _) => error == Some(kind) && (name.Some? ==> detection.unknownName == name)
         case Chosen(_, _) => false
    }

    /** Append to the pending bytes. */
    method Accept(bytes: seq<Byte>, final: bool, source: Source)
      requires Valid(source) && (finalSeen ==> bytes == [] && final)
      modifies this`pending, this`received, this`finalSeen
      ensures Valid(source) && received == old(received) + bytes && finalSeen == final
    {
      hide Decode, Detect, NextOf, Progress, StartsWith, Source.Valid, Detector.Remembers;
      Extend(bytes, final, source);
      pending := pending + bytes;
      received := received + bytes;
      finalSeen := final;
    }

    /** Input that was stored elsewhere came to its end, or not. */
    ghost method Note(final: bool, source: Source)
      requires Valid(source) && !finalSeen
      modifies this`finalSeen
      ensures Valid(source) && finalSeen == final
    {
      hide Decode, Detect, Source.Valid, Detector.Remembers, NextOf;
      Extend([], final, source);
      assert received + [] == received && Unread() + [] == Unread();
      finalSeen := final;
    }

    /** What stays true of the received bytes when more arrive. */
    lemma Extend(bytes: seq<Byte>, final: bool, source: Source)
      requires Valid(source) && (finalSeen ==> bytes == [] && final)
      ensures (pending + bytes)[pendingCursor..] == Unread() + bytes
      ensures encoding.None? ==> detection.Remembers(pending + bytes)
      ensures encoding.Some? && !installed ==>
        Detect(detection.settings, received + bytes, final) == Chosen(encoding.value, mark)
      ensures encoding.Some? ==>
        && skip <= |received + bytes| && (StartsWith(received, UTF8_BOM) ==> StartsWith(received + bytes, UTF8_BOM))
        && Progress(CodecNow(), (received + bytes)[skip..], source.ledger.units, Unread() + bytes)
      ensures encoding.Some? && conversion.Some? ==>
        var width := conversion.value.1;
        && NextOf(CodecNow(), Unread() + bytes) == Next.Conversion(width)
        && (Unread() + bytes)[..width] == Unread()[..width]
    {
      hide Decode, Detect, NextOf, Source.Valid, Detector.Remembers;
      DropConcat(pending, bytes, pendingCursor);
      if encoding.None? {
        detection.Keeps(pending, bytes);
      } else {
        DropConcat(received, bytes, skip);
        if StartsWith(received, UTF8_BOM) { StartsExtends(received, bytes, UTF8_BOM); }
        ProgressExtends(CodecNow(), received[skip..], source.ledger.units, Unread(), bytes);
        if conversion.Some? { NextStable(CodecNow(), Unread(), bytes); }
        if finalSeen {
          assert received + bytes == received;
        } else if !installed {
          DetectStable(detection.settings, received, bytes, final);
        }
      }
    }

    /** The direct path: complete native text goes to the source without touching the pending bytes. */
    method FeedDirect(bytes: seq<Byte>, text: string, final: bool, source: Source)
      requires Valid(source) && (finalSeen ==> bytes == [] && final)
      requires encoding == Some(Utf8Encoding) && pending == [] && FromUtf8(bytes) == (text, |bytes|, false)
      modifies this`received, this`finalSeen, source, source.text
      ensures Valid(source) && received == old(received) + bytes && finalSeen == final
      ensures Settled(source, None) && Grows(old(source.ledger), source.ledger)
      ensures source.ledger.start == old(source.ledger.start) && source.encoding == old(source.encoding)
      ensures source.retainNativeInput == old(source.retainNativeInput) && source.Here() == old(source.Here())
    {
      hide Decode, Detect, FromUtf8, Source.Valid, Detector.Remembers;
      Extend(bytes, final, source);
      ghost var codec := CodecNow();
      FromUtf8Decodes(codec, bytes);
      assert Unread() + bytes == bytes && bytes[|bytes|..] == [];
      ghost var units := FixedUnits(Utf8Encoding, text);
      DecodeNothing(codec);
      assert units + [] == units;
      ProgressTrans(codec, (received + bytes)[skip..], source.ledger.units, bytes, units, []);
      source.PushText(text);
      received := received + bytes;
      finalSeen := final;
      ProgressEnds(codec, received[skip..], source.ledger.units, []);
    }

    /** `set_detected_encoding` and what follows it. */
    method ChooseEncoding(final: bool, source: Source) returns (error: Option<ErrorKind>)
      requires Valid(source) && encoding.None? && final == finalSeen
      modifies this`encoding, this`pending, this`mark, this`skip, detection, source
      ensures encoding.None? ==> NotChosen(source, error) && (error.None? ==> Valid(source))
      ensures encoding.Some? ==> Valid(source) && conversion.None? && error.None? && skip == mark
      ensures installed == old(installed) && source.ledger.units == [] && Grows(old(source.ledger), source.ledger)
    {
      hide Decode, Detect, Source.Valid, Detector.Remembers;
      var choice := detection.DetectNow(pending, final);
      match choice
      case Undetermined => error := None;
      case Rejected(kind, _, _) => error := Some(kind);
      case Chosen(chosen, length) =>
        DetectedCodec(detection.settings, pending, finalSeen);
        source.Select(chosen, length);
        pending := pending[length..];
        encoding, mark, skip := Some(chosen), length, length;
        Started(this, source, chosen, length);
        error := None;
    }

    /** Decode what is pending, drain it, and judge what is left at the end of input. */
    method DecodePending(final: bool, source: Source) returns (error: Option<ErrorKind>)
      requires Valid(source) && encoding.Some? && conversion.None? && final == finalSeen
      modifies this`pending, this`pendingCursor, this`conversion, source, source.text
      ensures conversion.None? ==> Settled(source, error)
      ensures conversion.Some? ==> error.None?
      ensures error.None? ==> Valid(source)
      ensures source.Valid() && Grows(old(source.ledger), source.ledger)
    {
      hide Decode, Detect, NextOf, Progress, StartsWith, Source.Valid, Detector.Remembers;
      var consumed: nat, bad := pendingCursor, false;
      match encoding.value {
        case Utf8Encoding => consumed, bad := DecodeUtf8(source);
        case SingleByte => consumed, bad := DecodeCustom(source);
        case MultiByte => consumed, bad := DecodeCustom(source);
        case Ascii => consumed, bad := DecodeBytes(source);
        case Latin1 => consumed, bad := DecodeBytes(source);
        case Utf16Le => consumed, bad := DecodeUtf16(source);
        case Utf16Be => consumed, bad := DecodeUtf16(source);
      }
      if bad {
        return Some(InvalidToken);
      }
      Drain(consumed, source);
      if final && conversion.None? && pendingCursor < |pending| {
        error := Some(if (encoding.value == Utf16Le || encoding.value == Utf16Be) && |pending| == 1
                      then UnclosedToken else PartialCharacter);
      } else {
        error := None;
      }
    }

    /** What is unread cannot be decoded further. */
    ghost predicate Drained(source: Source)
      reads this, source
    {
      && encoding.Some? && CodecNow().Valid() && skip <= |received| && pendingCursor <= |pending|
      && Whole() == Decoded(source.ledger.units, Unread(), false)
    }

    /** Forget consumed bytes; multibyte input keeps them until they dominate the buffer. */
    method Drain(consumed: nat, source: Source)
      requires Consumed(source, consumed) && Stopped(source, consumed, false) && Selected(source.ledger)
      requires encoding != Some(MultiByte) ==> pendingCursor == 0
      modifies this`pending, this`pendingCursor
      ensures Valid(source) && (conversion.None? ==> Drained(source))
    {
      hide Decode, Detect, NextOf, Source.Valid;
      ghost var rest := pending[consumed..];
      if conversion.None? { ProgressEnds(CodecNow(), received[skip..], source.ledger.units, rest); }
      if encoding.value == MultiByte {
        pendingCursor := consumed;
        if consumed == |pending| || (consumed >= BLOCK && consumed >= |pending| / 2) {
          pending := pending[consumed..];
          pendingCursor := 0;
        }
      } else {
        pending := pending[consumed..];
      }
      assert Unread() == rest;
    }

    /** What a decoding loop has done when `consumed` pending bytes are behind it. */
    ghost predicate Consumed(source: Source, consumed: nat)
      reads this, source, source.text
    {
      && source.Valid() && source.anchor.None? && encoding.Some? && source.encoding == encoding.value
      && CodecNow().Valid() && skip <= |received| && consumed <= |pending|
      && Progress(CodecNow(), received[skip..], source.ledger.units, pending[consumed..])
    }

    ghost predicate Stopped(source: Source, consumed: nat, bad: bool)
      requires encoding.Some? && CodecNow().Valid() && skip <= |received| && consumed <= |pending|
      reads this, source
    {
      if bad then Whole().failed && Whole().units == source.ledger.units && conversion.None?
      else match conversion
        case None => NextOf(CodecNow(), pending[consumed..]) == Starved
        case Some((sequence, width)) =>
          && encoding == Some(MultiByte) && NextOf(CodecNow(), pending[consumed..]) == Next.Conversion(width)
          && 1 <= width <= 4 && width <= |pending| - consumed && sequence == Padded(pending[consumed..][..width])
    }

    method DecodeUtf8(source: Source) returns (consumed: nat, bad: bool)
      requires Valid(source) && encoding == Some(Utf8Encoding)
      modifies source, source.text
      ensures source.Valid() && source.encoding == old(source.encoding) && source.ledger.start == old(source.ledger.start)
      ensures Grows(old(source.ledger), source.ledger)
      ensures consumed <= |pending| && Stopped(source, consumed, bad) && (!bad ==> Consumed(source, consumed))
    {
      hide Decode, Detect, FromUtf8, NextOf, Source.Valid, Detector.Remembers;
      var (text, upTo, invalid) := FromUtf8(pending);
      ghost var codec, units := CodecNow(), FixedUnits(Utf8Encoding, text);
      FromUtf8Decodes(codec, pending);
      DecodeStuck(codec, pending);
      assert Unread() == pending;
      ProgressTrans(codec, received[skip..], source.ledger.units, pending, units, pending[upTo..]);
      source.PushText(text);
      ProgressStuck(codec, received[skip..], source.ledger.units, pending[upTo..]);
      return upTo, invalid;
    }

    method DecodeBytes(source: Source) returns (consumed: nat, bad: bool)
      requires Valid(source) && (encoding == Some(Ascii) || encoding == Some(Latin1))
      modifies source, source.text
      ensures source.Valid() && source.encoding == old(source.encoding) && source.ledger.start == old(source.ledger.start)
      ensures Grows(old(source.ledger), source.ledger)
      ensures consumed <= |pending| && Stopped(source, consumed, bad) && (!bad ==> Consumed(source, consumed))
    {
      hide Decode, Detect, Source.Valid, Detector.Remembers;
      consumed := 0;
      while consumed < |pending| && (encoding == Some(Latin1) || pending[consumed] < 0x80)
        invariant Consumed(source, consumed)
        invariant source.encoding == old(source.encoding) && source.ledger.start == old(source.ledger.start)
        invariant Grows(old(source.ledger), source.ledger)
      {
        var c := pending[consumed] as char;
        ProgressStep(CodecNow(), received[skip..], source.ledger.units, pending[consumed..]);
        SingleFixed(encoding.value, c);
        source.PushText([c]);
        assert pending[consumed..][1..] == pending[consumed + 1..];
        consumed := consumed + 1;
      }
      ProgressStep(CodecNow(), received[skip..], source.ledger.units, pending[consumed..]);
      bad := consumed < |pending|;
    }

    method DecodeUtf16(source: Source) returns (consumed: nat, bad: bool)
      requires Valid(source) && (encoding == Some(Utf16Le) || encoding == Some(Utf16Be))
      modifies source, source.text
      ensures source.Valid() && source.encoding == old(source.encoding) && source.ledger.start == old(source.ledger.start)
      ensures Grows(old(source.ledger), source.ledger)
      ensures consumed <= |pending| && Stopped(source, consumed, bad) && (!bad ==> Consumed(source, consumed))
    {
      hide Decode, Detect, Source.Valid, Detector.Remembers, NextUtf16;
      var little := encoding == Some(Utf16Le);
      consumed, bad := 0, false;
      while true
        invariant Consumed(source, consumed) && !bad
        invariant source.encoding == old(source.encoding) && source.ledger.start == old(source.ledger.start)
        invariant Grows(old(source.ledger), source.ledger)
        decreases |pending| - consumed
      {
        ProgressStep(CodecNow(), received[skip..], source.ledger.units, pending[consumed..]);
        var step := Utf16Step(little, pending, consumed);
        match step {
          case Starved => break;
          case Malformed => return consumed, true;
          case Found(unit, width) =>
            SingleFixed(encoding.value, unit.lex.c);
            source.PushText([unit.lex.c]);
            assert pending[consumed..][width..] == pending[consumed + width..];
            consumed := consumed + width;
        }
      }
    }

    method DecodeCustom(source: Source) returns (consumed: nat, bad: bool)
      requires Valid(source) && (encoding == Some(SingleByte) || encoding == Some(MultiByte)) && conversion.None?
      modifies this`conversion, source, source.text
      ensures source.Valid() && source.encoding == old(source.encoding) && source.ledger.start == old(source.ledger.start)
      ensures Grows(old(source.ledger), source.ledger)
      ensures consumed <= |pending| && Stopped(source, consumed, bad) && (!bad ==> Consumed(source, consumed))
    {
      hide Decode, Detect, Source.Valid, Detector.Remembers, NextCustom, MappedUnit, Padded;
      consumed, bad := pendingCursor, false;
      while true
        invariant Consumed(source, consumed) && conversion.None? && !bad
        invariant source.encoding == old(source.encoding) && source.ledger.start == old(source.ledger.start)
        invariant Grows(old(source.ledger), source.ledger)
        decreases |pending| - consumed
      {
        ProgressStep(CodecNow(), received[skip..], source.ledger.units, pending[consumed..]);
        var step := CustomStep(customMap, rules, pending, consumed, CodecNow());
        match step {
          case Starved => break;
          case Malformed => return consumed, true;
          case Conversion(width) =>
            conversion := Some((Padded(pending[consumed..consumed + width]), width));
            DropSlice(pending, consumed, 0, width);
            break;
          case Found(unit, _) =>
            PushMapped(unit.lex.Scalar(), pending[consumed], source);
            DropDrop(pending, consumed, 1);
            consumed := consumed + 1;
        }
      }
    }

    /** A mapped character keeps its byte as spelling unless it is that byte. */
    method PushMapped(character: char, byte: Byte, source: Source)
      requires source.Valid() && |customMap| == 256 && (source.encoding == SingleByte || source.encoding == MultiByte)
      modifies source, source.text
      ensures source.Valid() && source.encoding == old(source.encoding)
      ensures
        var unit := MappedUnit(customMap, rules, character, byte);
        source.ledger == old(source.ledger).(units := old(source.ledger.units) + [unit])
    {
      hide Source.Valid, PublicByte, Padded;
      var spelling := if character as int != byte
                      then Some((Padded([byte]), PublicByte(customMap, byte, rules))) else None;
      source.PushCustom(character, 1, spelling);
    }

    /** `resolve_conversion`: the application's answer for the sequence at the front. */
    method ResolveConversion(value: int, source: Source) returns (error: Option<ErrorKind>)
      requires Valid(source) && encoding.Some? && conversion.Some?
      requires value == converter(conversion.value.0[..conversion.value.1])
      modifies this`pendingCursor, this`conversion, source, source.text
      ensures error.None? ==> Valid(source) && conversion.None? && |source.ledger.units| == |old(source.ledger.units)| + 1
      ensures error.Some? ==> Settled(source, error)
      ensures source.Valid() && Grows(old(source.ledger), source.ledger)
    {
      hide Decode, Detect, Source.Valid, Detector.Remembers, NextOf, IsXmlChar, PublicByte;
      var (sequence, width) := conversion.value;
      ghost var unread, units := Unread(), source.ledger.units;
      ProgressConversion(CodecNow(), received[skip..], units, unread);
      assert sequence[..width] == unread[..width];
      var character := FromU32(value);
      if value > 0xFFFF || character.None? || !IsXmlChar(character.value) {
        return Some(InvalidToken);
      }
      var publicValid := forall i: nat | i < width :: PublicByte(customMap, sequence[i], rules);
      assert publicValid == forall i: nat | i < width :: PublicByte(customMap, unread[..width][i], rules) by {
        assert forall i: nat | i < width :: sequence[i] == unread[..width][i];
      }
      assert Padded(unread[..width]) == sequence;
      source.PushCustom(character.value, width, Some((sequence, publicValid)));
      pendingCursor := pendingCursor + width;
      conversion := None;
      assert Unread() == unread[width..];
      return None;
    }

    /** `install_map`: a custom map for the encoding that detection could not name. */
    method InstallMap(name: string, values: seq<int>, allowMultibyte: bool, source: Source)
      returns (error: Option<ErrorKind>)
      requires encoding.None? && NotChosen(source, Some(UnknownEncoding)) && |values| == 256
      modifies this`encoding, this`pending, this`customMap, this`mark, this`skip, this`installed, source
      ensures
        var known := detection.unknownName.Some? && SameName(detection.unknownName.value, name);
        var bom := StartsWith(received, UTF8_BOM);
        if !known || !MapAllowed(values, allowMultibyte) then error == Some(UnknownEncoding)
        else if detection.settings.requested.Some? && bom then error == Some(IncorrectEncoding)
        else
          && error.None? && Valid(source) && conversion.None? && received == old(received)
          && encoding == Some(CustomEncoding(values)) && customMap == values && mark == skip == (if bom then 3 else 0)
          && installed && Grows(old(source.ledger), source.ledger)
      ensures error.Some? ==>
        encoding.None? && NotChosen(source, Some(UnknownEncoding)) && source.ledger == old(source.ledger)
    {
      hide Decode, Detect, Source.Valid, Detector.Remembers, Decoder.Valid, SameName;
      if detection.unknownName.None? || !SameName(detection.unknownName.value, name) {
        return Some(UnknownEncoding);
      }
      if !MapAllowed(values, allowMultibyte) {
        return Some(UnknownEncoding);
      }
      var bom := StartsWith(pending, UTF8_BOM);
      if detection.settings.requested.Some? && bom {
        return Some(IncorrectEncoding);
      }
      var chosen := CustomEncoding(values);
      customMap := values;
      var length := if bom then 3 else 0;
      pending := pending[length..];
      source.Select(chosen, length);
      encoding, mark, skip, installed := Some(chosen), length, length, true;
      Started(this, source, chosen, length);
      return None;
    }
  }

  /** A decoder that knows its encoding and has stored nothing yet. */
  lemma Started(d: Decoder, s: Source, e: Encoding, skip: nat)
    requires s.Valid() && s.anchor.None? && s.encoding == e && s.ledger == Ledger(Origin(skip), [], 0, 0)
    requires d.encoding == Some(e) && d.conversion.None? && d.mark == d.skip == skip <= |d.received|
    requires d.pending == d.received[skip..] && d.pendingCursor == 0
    requires
      if d.installed then |d.customMap| == 256 && e == CustomEncoding(d.customMap)
      else BuiltIn(e) && d.customMap == [] && Detect(d.detection.settings, d.received, d.finalSeen) == Chosen(e, skip)
    ensures d.Valid(s)
  {
    hide Detect, Decode, Source.Valid;
    ProgressStarts(d.CodecNow(), d.received[skip..]);
    assert d.Unread() == d.received[skip..];
  }

  lemma StartsExtends(a: seq<Byte>, more: seq<Byte>, prefix: seq<Byte>)
    requires StartsWith(a, prefix)
    ensures StartsWith(a + more, prefix)
  {
    assert (a + more)[..|prefix|] == a[..|prefix|];
  }

  /** One iteration over UTF-16: wait, fail, or take one scalar. */
  method Utf16Step(little: bool, pending: seq<Byte>, consumed: nat) returns (step: Next)
    requires consumed <= |pending|
    ensures step == NextUtf16(little, pending[consumed..])
    ensures step.Found? ==> step.unit.lex.Raw? && step.width == 2 * Utf16Units(step.unit.lex.c) <= |pending| - consumed
    ensures step.Found? ==> step.unit.width == step.width
  {
    if consumed + 1 >= |pending| {
      return Starved;
    }
    var first := CodeUnit(little, pending[consumed..]);
    if 0xD800 <= first <= 0xDBFF {
      if consumed + 3 >= |pending| {
        return Starved;
      }
      var second := CodeUnit(little, pending[consumed + 2..]);
      assert pending[consumed..][2..] == pending[consumed + 2..];
      if !(0xDC00 <= second <= 0xDFFF) {
        return Malformed;
      }
      var codepoint := 0x1_0000 + (first - 0xD800) * 1024 + (second - 0xDC00);
      return Found(Unit(Raw(FromU32(codepoint).value), 4), 4);
    }
    if FromU32(first).None? {
      return Malformed;
    }
    return Found(Unit(Raw(FromU32(first).value), 2), 2);
  }

  /** One iteration over a custom encoding: look the next byte up in the map. */
  method CustomStep(values: seq<int>, rules: NameRules, pending: seq<Byte>, consumed: nat, ghost codec: Codec)
    returns (step: Next)
    requires consumed <= |pending| && |values| == 256 && codec.values == values && codec.rules == rules
    ensures step == NextCustom(codec, pending[consumed..])
    ensures step.Found? ==> consumed < |pending| && step.width == 1
    ensures step.Found? ==> step.unit == MappedUnit(values, rules, step.unit.lex.Scalar(), pending[consumed])
    ensures step.Conversion? ==>
      2 <= step.width <= 4 && step.width <= |pending| - consumed && CustomEncoding(values) == MultiByte
  {
    if consumed == |pending| {
      return Starved;
    }
    var value := values[pending[consumed]];
    if -4 <= value <= -2 {
      return if |pending| - consumed >= -value then Next.Conversion(-value) else Starved;
    }
    if FromU32(value).None? {
      return Malformed;
    }
    return Found(MappedUnit(values, rules, FromU32(value).value, pending[consumed]), 1);
  }

  lemma DecodeNothing(codec: Codec)
    requires codec.Valid()
    ensures Decode(codec, []) == Decoded([], [], false) && NextOf(codec, []) == Starved
  {}

  lemma ProgressEnds(codec: Codec, bytes: seq<Byte>, units: seq<Unit>, rest: seq<Byte>)
    requires Progress(codec, bytes, units, rest) && NextOf(codec, rest) == Starved
    ensures Decode(codec, bytes) == Decoded(units, rest, false)
  {
    ProgressStep(codec, bytes, units, rest);
  }

  lemma ProgressStuck(codec: Codec, bytes: seq<Byte>, units: seq<Unit>, rest: seq<Byte>)
    requires Progress(codec, bytes, units, rest) && Decode(codec, rest).units == []
    ensures Decode(codec, bytes) == Decoded(units, Decode(codec, rest).rest, Decode(codec, rest).failed)
  {
    assert units + [] == units;
  }

  lemma SingleFixed(encoding: Encoding, c: char)
    ensures FixedUnits(encoding, [c]) == [Unit(Raw(c), EncodedWidth(encoding, c))]
  {}

  /** Detection never picks a custom encoding, and never skips more than it has. */
  lemma DetectedCodec(settings: Settings, bytes: seq<Byte>, final: bool)
    requires Detect(settings, bytes, final).Chosen?
    ensures
      var choice := Detect(settings, bytes, final);
      BuiltIn(choice.encoding) && choice.skip <= |bytes|
  {
    hide Named, Signature, Declared, FindClose, OpensDeclaration;
  }
}
