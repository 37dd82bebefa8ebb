/** Whole decoding sessions: neither chunk boundaries nor consumption in between can be seen (encoding.rs). */
module Sessions {
  import opened Unicode
  import opened Wrappers
  import opened Errors
  import opened Names
  import opened Lexical
  import opened Sources
  import opened SourceClass
  import opened Codecs
  import opened Detection
  import opened Decoding
  import opened DecoderClass

  /** A custom map has one entry for every byte. */
  type CustomMap = values: seq<int> | |values| == 256 witness seq(256, _ => 0)

  /** Everything the application decides about a session. */
  datatype Application = Application(
    settings: Settings, rules: NameRules, converter: seq<Byte> -> int, values: Option<CustomMap>, allowMultibyte: bool)

  // ---------------------------------------------------------------- what input reads as

  /** The length of the byte order mark, the units behind it, and the error. */
  datatype Reading = Reading(mark: nat, units: seq<Unit>, error: Option<ErrorKind>)

  /** What all the input so far reads as, defined without any chunks or saved state. */
  function Read(app: Application, bytes: seq<Byte>, final: bool): Reading {
    match Detect(app.settings, bytes, final)
    case Undetermined => Reading(0, [], None)
    case Chosen(encoding, skip) =>
      DetectedCodec(app.settings, bytes, final);
      ReadAs(app, encoding, [], bytes, skip, final)
    case Rejected(kind, _, _) =>
      if kind != UnknownEncoding || app.values.None? then Reading(0, [], Some(kind))
      else if !MapAllowed(app.values.value, app.allowMultibyte) then Reading(0, [], Some(UnknownEncoding))
      else if StartsWith(bytes, UTF8_BOM) && app.settings.requested.Some? then Reading(0, [], Some(IncorrectEncoding))
      else
        var values := app.values.value;
        ReadAs(app, CustomEncoding(values), values, bytes, if StartsWith(bytes, UTF8_BOM) then 3 else 0, final)
  }

  function ReadAs(app: Application, encoding: Encoding, values: seq<int>, bytes: seq<Byte>, mark: nat,
                  final: bool): Reading
    requires (BuiltIn(encoding) || |values| == 256) && mark <= |bytes|
    ensures ReadAs(app, encoding, values, bytes, mark, final).mark == mark
  {
    var decoded := Decode(Codec(encoding, values, app.converter, app.rules), bytes[mark..]);
    Reading(mark, decoded.units, FeedError(encoding, decoded, final))
  }

  lemma ReadAsGrows(app: Application, encoding: Encoding, values: seq<int>, bytes: seq<Byte>, mark: nat,
                    more: seq<Byte>, final: bool)
    requires (BuiltIn(encoding) || |values| == 256) && mark <= |bytes|
    ensures
      var before, after := ReadAs(app, encoding, values, bytes, mark, false),
                           ReadAs(app, encoding, values, bytes + more, mark, final);
      before.units <= after.units && (before.error.Some? ==> after == before)
  {
    hide Decode;
    DecodeConcat(Codec(encoding, values, app.converter, app.rules), bytes[mark..], more);
    assert (bytes + more)[mark..] == bytes[mark..] + more;
  }

  lemma RejectedSettled(settings: Settings, at: seq<Byte>)
    requires Detect(settings, at, false).Rejected?
    ensures SignatureSettled(at)
  {
    hide FromContent, Signature, Named;
  }

  /** What was rejected on a prefix is rejected for the whole input, with the same byte order mark. */
  lemma RefusedStable(app: Application, at: seq<Byte>, final: bool, more: seq<Byte>, whole: bool)
    requires Detect(app.settings, at, final).Rejected? && (final ==> more == [] && whole)
    ensures Detect(app.settings, at + more, whole) == Detect(app.settings, at, final)
    ensures StartsWith(at + more, UTF8_BOM) == StartsWith(at, UTF8_BOM)
  {
    hide Detect, StartsWith;
    if final {
      assert at + more == at;
    } else {
      DetectStable(app.settings, at, more, whole);
      RejectedSettled(app.settings, at);
      Prefixes(at, more, UTF8_BOM);
    }
  }

  /** More input only adds units, and an error on a prefix is the error of the whole input. */
  lemma ReadGrows(app: Application, bytes: seq<Byte>, more: seq<Byte>, final: bool)
    ensures
      var before, after := Read(app, bytes, false), Read(app, bytes + more, final);
      && before.units <= after.units && (before.error.Some? ==> after == before)
      && (before.units != [] || before.mark != 0 ==> after.mark == before.mark)
  {
    hide Detect, MapAllowed, StartsWith, ReadAs;
    var choice := Detect(app.settings, bytes, false);
    if choice.Chosen? {
      DetectStable(app.settings, bytes, more, final);
      DetectedCodec(app.settings, bytes, false);
      ReadAsGrows(app, choice.encoding, [], bytes, choice.skip, more, final);
    } else if choice.Rejected? {
      RefusedStable(app, bytes, false, more, final);
      if app.values.Some? {
        var values := app.values.value;
        var mark := if StartsWith(bytes, UTF8_BOM) then 3 else 0;
        MarkWithin(bytes);
        ReadAsGrows(app, CustomEncoding(values), values, bytes, mark, more, final);
      }
    }
  }

  lemma MarkWithin(bytes: seq<Byte>)
    ensures StartsWith(bytes, UTF8_BOM) ==> 3 <= |bytes| && bytes == UTF8_BOM + bytes[3..]
  {}

  lemma NothingRead(app: Application)
    ensures Read(app, [], false) == Reading(0, [], None)
  {}

  // -------------------------------------------------------------- what a source holds

  /** A byte order mark that became a character. */
  const MARK := Unit(Raw('\U{FEFF}'), 3)

  /** A source holds what was read. One that took the mark as a character has consumed it. */
  predicate Stores(l: Ledger, r: Reading) {
    l.Ordered() &&
    if l.start == Origin(r.mark) then l.units == r.units
    else r.mark == 3 && l.start == Origin(0) && l.units == [MARK] + r.units && l.consumed >= 1
  }

  /** How much of what was read is consumed. */
  function Taken(l: Ledger, r: Reading): (n: nat)
    requires Stores(l, r)
    ensures n <= |r.units|
  {
    if l.start == Origin(r.mark) then l.consumed else l.consumed - 1
  }

  /** Either way the unread units, and the place of every one of them, are those of the reading. */
  lemma StoredUnread(l: Ledger, r: Reading)
    requires Stores(l, r)
    ensures l.units[l.consumed..] == r.units[Taken(l, r)..]
    ensures forall i: nat | i <= |r.units| - Taken(l, r) ::
      l.consumed + i <= |l.units| && l.PlaceAt(i) == After(Origin(r.mark), r.units[..Taken(l, r) + i])
    ensures forall i: nat, j: nat | i <= j <= |r.units| - Taken(l, r) ::
      l.consumed + j <= |l.units| && l.RawBetween(i, j) == RawSum(r.units[Taken(l, r)..][i..j])
  {
    hide RawSum, After;
    var t := Taken(l, r);
    if l.start != Origin(r.mark) {
      AfterMark();
      forall i: nat | i <= |r.units| - t ensures l.PlaceAt(i) == After(Origin(r.mark), r.units[..t + i]) {
        assert l.units[..l.consumed + i] == [MARK] + r.units[..t + i];
        AfterConcat(l.start, [MARK], r.units[..t + i]);
      }
    }
    forall i: nat, j: nat | i <= j <= |r.units| - t
      ensures l.consumed + j <= |l.units| && l.RawBetween(i, j) == RawSum(r.units[t..][i..j])
    {
      DropSlice(r.units, t, i, j);
      if l.start != Origin(r.mark) {
        assert l.units[1..] == r.units;
        DropSlice(l.units, 1, t + i, t + j);
      }
    }
  }

  lemma AfterMark()
    ensures After(Origin(0), [MARK]) == Origin(3)
  {
    assert RawSum([MARK]) == 3 + RawSum([]);
    assert Characters([MARK]) == ['\U{FEFF}'];
    AdvanceOne(Origin(0).at, '\U{FEFF}');
  }

  lemma AdvanceOne(at: Positions.Coordinates, c: char)
    ensures Positions.Advance(at, [c]) == Positions.Step(at, c)
  {
    assert Positions.Advance(at, [c]) == Positions.Advance(Positions.Step(at, c), "");
  }

  // ------------------------------------------------------------------ invariants

  /** Where a custom map was installed: on a prefix whose encoding detection could not name. */
  ghost predicate InstalledAt(app: Application, at: seq<Byte>, final: bool) {
    && Detect(app.settings, at, final).Rejected? && Detect(app.settings, at, final).kind == UnknownEncoding
    && app.values.Some? && MapAllowed(app.values.value, app.allowMultibyte)
    && !(StartsWith(at, UTF8_BOM) && app.settings.requested.Some?)
  }

  /** A decoder that serves the application, and the map it may have been given. */
  ghost predicate Serves(d: Decoder, app: Application, at: Option<(seq<Byte>, bool)>)
    reads d, d.detection
  {
    && d.detection.settings == app.settings && d.rules == app.rules && d.converter == app.converter
    && (d.installed <==> at.Some?)
    && (at.Some? ==>
          && at.value.0 <= d.received && (at.value.1 ==> d.finalSeen && at.value.0 == d.received)
          && InstalledAt(app, at.value.0, at.value.1)
          && d.customMap == app.values.value && d.skip == if StartsWith(at.value.0, UTF8_BOM) then 3 else 0)
  }

  /** A settled decoder has stored what its input reads as. */
  lemma SettledReads(d: Decoder, source: Source, app: Application, at: Option<(seq<Byte>, bool)>,
                     error: Option<ErrorKind>)
    requires Serves(d, app, at) && d.Settled(source, error) && source.ledger.Ordered()
    ensures
      var r := Read(app, d.received, d.finalSeen);
      && r.error == error && Stores(source.ledger, r) && (d.mark == d.skip ==> source.ledger.start == Origin(r.mark))
      && (!d.installed ==> r.mark == d.mark)
  {
    hide Detect, Decode, MapAllowed, StartsWith;
    var r := Read(app, d.received, d.finalSeen);
    if d.installed {
      var (prefix, final) := at.value;
      var more := d.received[|prefix|..];
      assert d.received == prefix + more;
      RefusedStable(app, prefix, final, more, d.finalSeen);
    } else if d.mark != d.skip {
      MarkWithin(d.received);
      MarkDecodes(d.CodecNow(), d.received[3..]);
      assert d.received[0..] == d.received;
    }
  }

  /** The mark decodes like any other character. */
  lemma MarkDecodes(codec: Codec, rest: seq<Byte>)
    requires codec.encoding == Utf8Encoding
    ensures Decode(codec, UTF8_BOM + rest) == Decode(codec, rest).After([MARK])
  {
    var all := UTF8_BOM + rest;
    assert Encode('\U{FEFF}') == UTF8_BOM;
    NextUtf8Encode('\U{FEFF}', rest);
    NextProgress(codec, all);
    assert all[3..] == rest;
  }

  /** So has a decoder that is still waiting, or was refused without a usable map. */
  lemma NotChosenReads(d: Decoder, source: Source, app: Application, error: Option<ErrorKind>)
    requires d.detection.settings == app.settings && d.NotChosen(source, error) && source.ledger.Ordered()
    requires error == Some(UnknownEncoding) ==> app.values.None?
    ensures
      var r := Read(app, d.received, d.finalSeen);
      r == Reading(0, [], error) && Stores(source.ledger, r)
  {
    hide Detect, Decode, MapAllowed, StartsWith, Source.Valid;
  }

  /** So has one whose map cannot be installed. */
  lemma RefusedReads(d: Decoder, source: Source, app: Application, error: Option<ErrorKind>)
    requires d.detection.settings == app.settings && d.NotChosen(source, Some(UnknownEncoding)) && app.values.Some?
    requires source.ledger.Ordered()
    requires
      var bom := StartsWith(d.received, UTF8_BOM);
      if !MapAllowed(app.values.value, app.allowMultibyte) then error == Some(UnknownEncoding)
      else bom && app.settings.requested.Some? && error == Some(IncorrectEncoding)
    ensures
      var r := Read(app, d.received, d.finalSeen);
      r == Reading(0, [], error) && Stores(source.ledger, r)
  {
    hide Detect, Decode, MapAllowed, StartsWith, CustomEncoding, ReadAs, Source.Valid;
  }

  lemma SameNameReflexive(name: string)
    ensures SameName(name, name)
  {}

  lemma SourceOrdered(source: Source)
    requires source.Valid()
    ensures source.ledger.Ordered()
  {}

  // ------------------------------------------------------------------- one feed

  /** Answer pending conversions until decoding waits for input or ends. */
  method Answer(d: Decoder, source: Source, app: Application, final: bool, ghost at: Option<(seq<Byte>, bool)>,
                failure: Option<ErrorKind>)
    returns (error: Option<ErrorKind>)
    requires Serves(d, app, at) && d.finalSeen == final && d.encoding.Some? && source.Valid()
    requires failure.None? ==> d.Valid(source)
    requires d.conversion.None? ==> d.Settled(source, failure)
    requires d.conversion.Some? ==> failure.None?
    modifies d, d.detection, source, source.text
    ensures d.received == old(d.received) && d.finalSeen == final && Serves(d, app, at)
    ensures d.encoding.Some? && d.Settled(source, error) && (error.None? ==> d.Valid(source))
    ensures d.skip == old(d.skip) && d.mark == old(d.mark)
    ensures source.Valid() && Grows(old(source.ledger), source.ledger)
  {
    hide Detect, Decode, MapAllowed, StartsWith, Source.Valid, Detector.Remembers, NextOf;
    error := failure;
    while d.conversion.Some? && error.None?
      invariant d.received == old(d.received) && d.finalSeen == final && Serves(d, app, at)
      invariant d.encoding.Some? && d.encoding == old(d.encoding) && d.customMap == old(d.customMap)
      invariant d.skip == old(d.skip) && d.mark == old(d.mark)
      invariant error.None? ==> d.Valid(source)
      invariant source.Valid() && Grows(old(source.ledger), source.ledger)
      invariant d.conversion.None? || error.Some? ==> d.Settled(source, error)
      decreases error.None?, Missing(d, source)
    {
      MissingBound(d, source);
      ghost var received, whole := d.received, d.Whole();
      var (sequence, width) := d.conversion.value;
      error := d.ResolveConversion(app.converter(sequence[..width]), source);
      if error.None? {
        error := d.Feed([], final, false, source);
        assert d.received == received && (error.None? ==> d.Whole() == whole);
      }
    }
  }

  /** Units of the received bytes that are not stored yet. */
  ghost function Missing(d: Decoder, source: Source): int
    reads d, source
  {
    if d.encoding.Some? && d.CodecNow().Valid() && d.skip <= |d.received|
    then |d.Whole().units| - |source.ledger.units| else 0
  }

  lemma MissingBound(d: Decoder, source: Source)
    requires d.Valid(source) && d.encoding.Some?
    ensures Missing(d, source) >= 0
  {
    hide Decode, Detect, Source.Valid;
  }

  /** What follows a feed: a request for a map is granted or refused, and conversions are answered. */
  method Continue(d: Decoder, source: Source, app: Application, final: bool, ghost at: Option<(seq<Byte>, bool)>,
                  failure: Option<ErrorKind>)
    returns (error: Option<ErrorKind>, ghost now: Option<(seq<Byte>, bool)>)
    requires Serves(d, app, at) && d.finalSeen == final && source.Valid()
    requires d.encoding.None? ==> d.NotChosen(source, failure)
    requires d.encoding.Some? && d.conversion.None? ==> d.Settled(source, failure)
    requires d.encoding.Some? && d.conversion.Some? ==> failure.None?
    requires failure.None? ==> d.Valid(source)
    modifies d, d.detection, source, source.text
    ensures d.received == old(d.received) && d.finalSeen == final
    ensures source.Valid() && Grows(old(source.ledger), source.ledger)
    ensures
      var r := Read(app, d.received, final);
      error == r.error && Stores(source.ledger, r)
    ensures error.None? ==> d.Valid(source) && Serves(d, app, now)
  {
    hide Detect, Decode, MapAllowed, StartsWith, Source.Valid, Detector.Remembers, Read, Stores;
    now, error := at, failure;
    SourceOrdered(source);
    if d.encoding.None? {
      if failure != Some(UnknownEncoding) || app.values.None? {
        NotChosenReads(d, source, app, failure);
        return;
      }
      var name := d.detection.unknownName.value;
      SameNameReflexive(name);
      error := d.InstallMap(name, app.values.value, app.allowMultibyte, source);
      if error.Some? {
        RefusedReads(d, source, app, error);
        return;
      }
      now := Some((d.received, final));
      error := d.Feed([], final, false, source);
    }
    error := Answer(d, source, app, final, now, error);
    SourceOrdered(source);
    SettledReads(d, source, app, now, error);
  }

  /** Feed some bytes, with or without room for them, and answer every request. */
  method Pump(d: Decoder, source: Source, app: Application, bytes: seq<Byte>, final: bool,
              ghost at: Option<(seq<Byte>, bool)>)
    returns (error: Option<ErrorKind>, ghost now: Option<(seq<Byte>, bool)>)
    requires d.Valid(source) && Serves(d, app, at) && !d.finalSeen
    modifies d, d.detection, source, source.text
    ensures d.received == old(d.received) + bytes && d.finalSeen == final
    ensures source.Valid() && Grows(old(source.ledger), source.ledger)
    ensures
      var r := Read(app, d.received, final);
      error == r.error && Stores(source.ledger, r)
    ensures error.None? ==> d.Valid(source) && Serves(d, app, now)
  {
    hide Detect, Decode, MapAllowed, StartsWith, Source.Valid, Detector.Remembers, Read, Stores;
    var roomy: bool := *;
    error := d.Feed(bytes, final, roomy, source);
    error, now := Continue(d, source, app, final, at, error);
  }
}
