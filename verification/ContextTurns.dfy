/** Reading with an adapter's window, in the same turns as without one (encoding.rs, lib.rs). */
module ContextTurns {
  import opened Unicode
  import opened Wrappers
  import opened Errors
  import opened Sources
  import opened SourceClass
  import opened Detection
  import opened DecoderClass
  import opened Sessions
  import opened Turns
  import opened InputContexts

  /** What the adapter sees of its window: the bytes, the offset of the first one, and whether the
      decoded text still owns them. */
  datatype Kept = Kept(bytes: seq<Byte>, start: nat, native: bool)

  // ------------------------------------------------------------------- the reference

  /** The offset in the original input that the parser has reached. */
  function ReachedTo(app: Application, turns: seq<Turn>, closing: bool, i: nat): nat
    requires i <= |turns|
  {
    var r := ReadTo(app, turns, closing, i);
    After(Origin(r.mark), r.units[..ConsumedTo(app, turns, closing, i)]).byteIndex
  }

  /** Where the window starts: it forgets what the adapter does not need, but never what the parser
      has not reached. */
  function StartTo(app: Application, turns: seq<Turn>, closing: bool, i: nat): (start: nat)
    requires i <= |turns|
    ensures start <= |Fed(turns[..i])|
    ensures i > 0 ==> StartTo(app, turns, closing, i - 1) <= start
  {
    if i == 0 then 0
    else
      FedNext(turns, i - 1);
      WindowStart(StartTo(app, turns, closing, i - 1),
                  Min(turns[i - 1].retain, ReachedTo(app, turns, closing, i - 1)), |Fed(turns[..i - 1])|)
  }

  /** Outcomes of detection for which the staged bytes are the decoded text. */
  predicate KeepsText(choice: Choice) { choice.Undetermined? || (choice.Chosen? && choice.encoding == Utf8Encoding) }

  /** The text owns the window as long as every feed is valid text and nothing but UTF-8 is detected. */
  predicate NativeTo(app: Application, turns: seq<Turn>, closing: bool, i: nat)
    requires i <= |turns|
  {
    i == 0 ||
    (NativeTo(app, turns, closing, i - 1) && Text(turns[i - 1].bytes).Some?
     && KeepsText(Detect(app.settings, Fed(turns[..i]), Ends(turns, closing, i))))
  }

  function KeptTo(app: Application, turns: seq<Turn>, closing: bool, i: nat): Kept
    requires i <= |turns|
  {
    var start := StartTo(app, turns, closing, i);
    Kept(Fed(turns[..i])[start..], start, NativeTo(app, turns, closing, i))
  }

  // ------------------------------------------------------------------ between turns

  /** A context, its decoder and the source they share hold what the input reads as. */
  ghost predicate Shares(c: InputContext, d: Decoder, s: Source, r: Reading, taken: nat, error: Option<ErrorKind>)
    reads c, d, d.detection, s, s.text
  {
    && c.Window(s) && Stores(s.ledger, r) && Taken(s.ledger, r) == taken && error == r.error
    && if c.native && d.encoding.None? then c.Staged(d, s) && r == Reading(0, [], None)
       else s.Valid() && s.anchor.None? && (c.native ==> c.Released(d, s) && error.None?)
  }

  /** They may be fed. */
  ghost predicate Open(c: InputContext, d: Decoder, s: Source, app: Application, at: Option<(seq<Byte>, bool)>)
    reads c, d, d.detection, s, s.text
  {
    && Serves(d, app, at) && d.received == c.received && !d.finalSeen
    && (if c.native then !d.installed else d.Valid(s))
  }

  lemma ServesPlainly(d: Decoder, app: Application)
    requires d.detection.settings == app.settings && d.rules == app.rules && d.converter == app.converter
    requires !d.installed
    ensures Serves(d, app, None)
  {}

  /** Nothing is taken of a text that was just released, or decoded for the first time. */
  lemma NothingTaken(d: Decoder, l: Ledger, r: Reading)
    requires Stores(l, r)
    requires l.consumed == 0 || (r.mark == d.mark && l.start == Origin(d.skip) && d.skip != d.mark && l.consumed == 1)
    ensures Taken(l, r) == 0
  {}

  lemma UndeterminedReads(app: Application, bytes: seq<Byte>, final: bool)
    requires Detect(app.settings, bytes, final).Undetermined?
    ensures Read(app, bytes, final) == Reading(0, [], None)
  {
    hide Detect;
  }

  lemma StagedStores(c: InputContext, d: Decoder, s: Source)
    requires c.Staged(d, s)
    ensures s.ledger == Ledger(Origin(0), [], 0, 0) && Stores(s.ledger, Reading(0, [], None))
    ensures Taken(s.ledger, Reading(0, [], None)) == 0
  {}

  lemma NeverAnchored(c: InputContext, d: Decoder, s: Source)
    requires c.Staged(d, s) || c.Released(d, s)
    ensures s.anchor.None?
  {
    hide Source.Valid, Decoder.Follows, Spells, Utf8, Detector.Remembers;
  }

  /** Detection on native input, and what follows when it is no longer native. */
  method DecodeStaged(c: InputContext, d: Decoder, s: Source, app: Application, ghost was: Ledger,
                      ghost before: Reading, final: bool)
    returns (error: Option<ErrorKind>, ghost now: Option<(seq<Byte>, bool)>)
    requires c.native && (c.Staged(d, s) || c.Released(d, s)) && !d.finalSeen
    requires d.detection.settings == app.settings && d.rules == app.rules && d.converter == app.converter
    requires Stores(was, before) && s.ledger.consumed == was.consumed && s.ledger.start == was.start
    requires d.encoding.None? ==> Taken(was, before) == 0
    requires
      before.units != [] || before.mark != 0 ==> Read(app, c.received, final).mark == before.mark
    modifies c, d, d.detection, s, s.text
    ensures c.received == old(c.received) && c.start == old(c.start)
    ensures c.native == KeepsText(Detect(app.settings, c.received, final))
    ensures Shares(c, d, s, Read(app, c.received, final), Taken(was, before), error)
    ensures error.None? && !final ==> Open(c, d, s, app, now)
  {
    hide Read, Stores, Taken, Source.Valid, Decoder.Valid, Detect, InputContext.Staged, InputContext.Released;
    hide Serves, Spells, Utf8, Decoder.Settled, Decoder.NotChosen;
    NeverAnchored(c, d, s);
    error := c.Decode(d, s, final);
    now := None;
    ServesPlainly(d, app);
    ghost var after := Read(app, c.received, final);
    if !c.native {
      error, now := Continue(d, s, app, final, None, error);
      NothingTaken(d, s.ledger, after);
    } else if d.encoding.None? {
      UndeterminedReads(app, c.received, final);
      StagedStores(c, d, s);
    } else {
      ReleasedParts(c, d, s);
      ReleasedSettled(c, d, s);
      SourceOrdered(s);
      SettledReads(d, s, app, None, error);
      if old(d.encoding).None? { NothingTaken(d, s.ledger, after); } else { TakenStays(was, s.ledger, before, after); }
    }
  }

  /** Feeding a context: what the input reads as is stored, and the text is native exactly as long as
      it can be. */
  method FeedContext(c: InputContext, d: Decoder, s: Source, app: Application, ghost at: Option<(seq<Byte>, bool)>,
                     ghost taken: nat, bytes: seq<Byte>, retain: nat, final: bool, failure: Option<ErrorKind>)
    returns (error: Option<ErrorKind>, ghost now: Option<(seq<Byte>, bool)>)
    requires Shares(c, d, s, Read(app, c.received, false), taken, failure)
    requires failure.None? ==> Open(c, d, s, app, at)
    requires retain <= s.rawIndex
    requires d.detection.settings == app.settings && d.rules == app.rules && d.converter == app.converter
    modifies c, d, d.detection, s, s.text
    ensures c.received == old(c.received) + bytes
    ensures c.start == WindowStart(old(c.start), retain, |old(c.received)|)
    ensures c.native == (old(c.native) && Text(bytes).Some? && KeepsText(Detect(app.settings, c.received, final)))
    ensures Shares(c, d, s, Read(app, c.received, final), taken, error)
    ensures error.None? && !final ==> Open(c, d, s, app, now)
  {
    hide Read, Stores, Taken, Source.Valid, Decoder.Valid, Detect, Text, InputContext.Staged, InputContext.Released;
    hide Serves, Spells, Utf8, Decoder.Settled, Decoder.NotChosen;
    error, now := failure, at;
    ghost var all, was := c.received, s.ledger;
    ReadGrows(app, all, bytes, final);
    if c.native { NeverAnchored(c, d, s); }
    var handled := c.Preserve(d, s, bytes, retain);
    if failure.Some? {
      d.AppendPending(bytes);
    } else if handled {
      error, now := DecodeStaged(c, d, s, app, was, Read(app, all, false), final);
    } else {
      assert d.Valid(s);
      if old(c.native) { ServesPlainly(d, app); now := None; }
      error, now := Pump(d, s, app, bytes, final, now);
      TakenStays(was, s.ledger, Read(app, all, false), Read(app, c.received, final));
    }
  }

  // ----------------------------------------------------------------- consuming

  /** Consuming keeps the text released: the adapter retains it, and the cursor moves on. */
  lemma StillReleased(c: InputContext, d: Decoder, s: Source, was: Ledger, rawIndex: nat, text: string)
    requires c.native && c.physicalStart <= c.start <= rawIndex && s.retainNativeInput && s.Valid() && s.anchor.None?
    requires d.encoding == Some(Utf8Encoding) && d.received == c.received && d.skip == 0 && d.pending == []
    requires d.Follows(s.encoding, was) && was.Ordered() && rawIndex == was.PlaceAt(0).byteIndex
    requires text == was.Stored() == s.text.text && s.ledger.units == was.units && s.ledger.start == was.start
    requires s.ledger.consumed >= was.consumed && c.physicalStart == Len(Characters(was.units)[..was.dropped])
    ensures c.Released(d, s)
  {
    hide Decoder.Follows, Spells, Utf8, Len, RawSum, Positions.Advance, LexicalBuffer.Buffer.Valid;
    StillFollows(d, s.encoding, was, s.ledger);
    PlaceGrows(was, s.ledger);
    assert |s.ledger.Stored()| == |s.ledger.units| - s.ledger.dropped && |was.Stored()| == |was.units| - was.dropped;
    ReleasedFrom(c, d, s);
  }

  lemma PlaceGrows(was: Ledger, now: Ledger)
    requires was.Ordered() && now.Ordered() && now.units == was.units && now.start == was.start
    requires now.consumed >= was.consumed
    ensures now.PlaceAt(0).byteIndex >= was.PlaceAt(0).byteIndex
  {
    hide RawSum, Positions.Advance;
    RawSumConcat(was.units[..was.consumed], was.units[was.consumed..now.consumed]);
    assert was.units[..was.consumed] + was.units[was.consumed..now.consumed] == was.units[..now.consumed];
    assert was.units[..was.consumed + 0] == was.units[..was.consumed];
    assert now.units[..now.consumed + 0] == was.units[..now.consumed];
  }

  lemma ReleasedLedgerParts(c: InputContext, d: Decoder, s: Source)
    requires c.Released(d, s)
    ensures s.Valid() && s.anchor.None? && d.Follows(s.encoding, s.ledger) && s.ledger.Ordered()
    ensures s.rawIndex == s.ledger.PlaceAt(0).byteIndex && s.text.text == s.ledger.Stored()
  {
    hide Decoder.Follows, Spells, Utf8, Len, RawSum, Positions.Advance, LexicalBuffer.Buffer.Valid;
  }

  /** Staged text: nothing is unread, and the position is still the start of the input. */
  method LookStaged(c: InputContext, d: Decoder, s: Source, turn: Turn) returns (seen: Seen)
    requires c.Staged(d, s)
    ensures seen == Look(Reading(0, [], None), 0, turn)
  {
    hide Detector.Remembers, Utf8, Positions.Advance;
    WholeBoundary(s.text.text);
    var unread := s.text.Contents()[CharIndex(s.text.text, s.cursor)..];
    EmptyLedger(Origin(0));
    EmptySum();
    seen := Seen(unread, Position(s.rawIndex, s.line, s.column, 0), None);
  }

  lemma EmptySum()
    ensures RawSum([]) == 0 && Lex([]) == []
  {}

  lemma WholeBoundary(text: string)
    ensures IsBoundary(text, Len(text)) && CharIndex(text, Len(text)) == |text|
  {
    assert text[..|text|] == text;
    CharIndexAt(text, |text|);
  }

  /** Consume and look. */
  method ProceedContext(c: InputContext, d: Decoder, s: Source, turn: Turn, ghost r: Reading, ghost taken: nat,
                        error: Option<ErrorKind>, ghost app: Application, ghost at: Option<(seq<Byte>, bool)>,
                        ghost open: bool)
    returns (seen: Seen)
    requires Shares(c, d, s, r, taken, error) && (open ==> Open(c, d, s, app, at))
    modifies s, s.text
    ensures Shares(c, d, s, r, Min(taken + turn.take, |r.units|), error) && (open ==> Open(c, d, s, app, at))
    ensures taken <= |r.units| && seen == Look(r, Min(taken + turn.take, |r.units|), turn)
  {
    hide Look, Stores, Taken, Source.Valid, Decoder.Valid, InputContext.Staged, InputContext.Released, Serves;
    hide Spells, Utf8, Len, Decoder.Follows, Characters;
    if c.native && d.encoding.None? {
      seen := LookStaged(c, d, s, turn);
      return;
    }
    ghost var was, rawIndex, text, encoding := s.ledger, s.rawIndex, s.text.text, s.encoding;
    if c.native { ReleasedParts(c, d, s); ReleasedLedgerParts(c, d, s); }
    if open && !c.native { ValidParts(d, s); }
    var _, now := Proceed(s, turn, r, taken, error);
    seen := now;
    if c.native { StillReleased(c, d, s, was, rawIndex, text); }
    if open && !c.native { ValidStill(d, s, was); }
  }

  lemma ValidParts(d: Decoder, s: Source)
    requires d.Valid(s)
    ensures d.Follows(s.encoding, s.ledger)
  {
    hide Source.Valid, Decoder.Follows;
  }

  lemma ValidStill(d: Decoder, s: Source, was: Ledger)
    requires s.Valid() && s.anchor.None? && d.Follows(s.encoding, was)
    requires s.ledger.units == was.units && s.ledger.start == was.start && s.ledger.consumed >= was.consumed
    ensures d.Valid(s)
  {
    hide Source.Valid, Decoder.Follows;
    StillFollows(d, s.encoding, was, s.ledger);
  }

  // -------------------------------------------------------------- whole sessions

  /** The parser has consumed the original input up to the raw index. */
  lemma Reached(c: InputContext, d: Decoder, s: Source, r: Reading, taken: nat, error: Option<ErrorKind>)
    requires Shares(c, d, s, r, taken, error)
    ensures taken <= |r.units| && s.rawIndex == After(Origin(r.mark), r.units[..taken]).byteIndex
  {
    hide Detector.Remembers, Utf8, InputContext.Released, RawSum, Positions.Advance, Stores, Taken;
    StoredUnread(s.ledger, r);
    if c.native && d.encoding.None? {
      StagedStores(c, d, s);
      EmptyLedger(Origin(0));
    } else {
      ValidPlace(s);
      assert r.units[..taken + 0] == r.units[..taken];
    }
  }

  lemma ValidPlace(s: Source)
    requires s.Valid()
    ensures s.rawIndex == s.ledger.PlaceAt(0).byteIndex
  {}

  /** The list of windows is the list the reference gives. */
  ghost predicate AllKept(app: Application, turns: seq<Turn>, closing: bool, kept: seq<Kept>) {
    |kept| <= |turns| && forall i: nat | 0 < i <= |kept| :: kept[i - 1] == KeptTo(app, turns, closing, i)
  }

  lemma KeptNext(app: Application, turns: seq<Turn>, closing: bool, kept: seq<Kept>, now: Kept)
    requires AllKept(app, turns, closing, kept) && |kept| < |turns| && now == KeptTo(app, turns, closing, |kept| + 1)
    ensures AllKept(app, turns, closing, kept + [now])
  {
    hide KeptTo;
  }

  /** Everything that was promised about the first turns. */
  ghost predicate Adapted(c: InputContext, d: Decoder, s: Source, app: Application, at: Option<(seq<Byte>, bool)>,
                          turns: seq<Turn>, closing: bool, i: nat, error: Option<ErrorKind>)
    requires i <= |turns|
    reads c, d, d.detection, s, s.text
  {
    && Shares(c, d, s, ReadTo(app, turns, closing, i), ConsumedTo(app, turns, closing, i), error)
    && c.received == Fed(turns[..i]) && c.start == StartTo(app, turns, closing, i)
    && c.native == NativeTo(app, turns, closing, i)
    && (error.None? && !Ends(turns, closing, i) ==> Open(c, d, s, app, at))
    && d.detection.settings == app.settings && d.rules == app.rules && d.converter == app.converter
  }

  /** What one turn does to the window's reference. */
  lemma KeptStep(app: Application, turns: seq<Turn>, closing: bool, i: nat)
    requires i < |turns|
    ensures StartTo(app, turns, closing, i + 1)
         == WindowStart(StartTo(app, turns, closing, i), Min(turns[i].retain, ReachedTo(app, turns, closing, i)),
                        |Fed(turns[..i])|)
    ensures NativeTo(app, turns, closing, i + 1)
       <==> NativeTo(app, turns, closing, i) && Text(turns[i].bytes).Some?
            && KeepsText(Detect(app.settings, Fed(turns[..i + 1]), Ends(turns, closing, i + 1)))
  {
    hide ReachedTo, Fed, Text, Detect, KeepsText, WindowStart;
  }

  /** One turn of a session with a window. */
  method TakeContextTurn(c: InputContext, d: Decoder, s: Source, app: Application, ghost at: Option<(seq<Byte>, bool)>,
                         turns: seq<Turn>, closing: bool, i: nat, failure: Option<ErrorKind>)
    returns (error: Option<ErrorKind>, seen: Seen, kept: Kept, ghost now: Option<(seq<Byte>, bool)>)
    requires i < |turns| && Adapted(c, d, s, app, at, turns, closing, i, failure)
    modifies c, d, d.detection, s, s.text
    ensures Adapted(c, d, s, app, now, turns, closing, i + 1, error)
    ensures seen == SeenAfter(app, turns[..i + 1], Ends(turns, closing, i + 1))
    ensures kept == KeptTo(app, turns, closing, i + 1)
  {
    hide Read, Look, Shares, Open, Consumed, Fed, SeenAfter, Detect, Text, KeepsText, Utf8, Decoder.Valid, Source.Valid;
    hide ReadTo, ConsumedTo, After, StartTo, NativeTo, WindowStart;
    KeptStep(app, turns, closing, i);
    ghost var taken := ConsumedTo(app, turns, closing, i);
    TurnRead(app, turns, closing, i);
    FedNext(turns, i);
    Reached(c, d, s, ReadTo(app, turns, closing, i), taken, failure);
    var final := closing && i + 1 == |turns|;
    EndsHere(turns, closing, i + 1);
    assert !Ends(turns, closing, i);
    var retain := Min(turns[i].retain, s.rawIndex);
    error, now := FeedContext(c, d, s, app, at, taken, turns[i].bytes, retain, final, failure);
    SharesWindow(c, d, s, ReadTo(app, turns, closing, i + 1), taken, error);
    kept := Kept(c.View(s).0, c.View(s).1, c.native);
    ghost var open, r := error.None? && !final, ReadTo(app, turns, closing, i + 1);
    seen := ProceedContext(c, d, s, turns[i], r, taken, error, app, now, open);
  }

  lemma SharesWindow(c: InputContext, d: Decoder, s: Source, r: Reading, taken: nat, error: Option<ErrorKind>)
    requires Shares(c, d, s, r, taken, error)
    ensures c.Window(s) && c.start <= |c.received|
  {}

  /** The same turns with a window: the parser sees exactly what it sees without one, and the window is
      the tail of the input from where it may start, across forgetting, consuming, the one-way fallback
      and failures. */
  method ReadAdapted(app: Application, turns: seq<Turn>, closing: bool) returns (seen: seq<Seen>, kept: seq<Kept>)
    ensures |seen| == |turns| && AllSeen(app, turns, closing, seen)
    ensures |kept| == |turns| && AllKept(app, turns, closing, kept)
  {
    hide AllSeen, AllKept, Adapted, SeenAfter, KeptTo, Decoder.Valid, Source.Valid, Ends;
    var s := new Source(false);
    var d := new Decoder(app.settings, app.rules, app.converter, s);
    var c := new InputContext(d, s);
    ghost var at: Option<(seq<Byte>, bool)> := None;
    var error: Option<ErrorKind> := None;
    seen, kept := [], [];
    BeginsAdapted(c, d, s, app, turns, closing);
    while |seen| < |turns|
      invariant |seen| == |kept| <= |turns| && fresh(c) && fresh(s) && fresh(s.text) && fresh(d) && fresh(d.detection)
      invariant AllSeen(app, turns, closing, seen) && AllKept(app, turns, closing, kept)
      invariant Adapted(c, d, s, app, at, turns, closing, |seen|, error)
      decreases |turns| - |seen|
    {
      var now, window;
      error, now, window, at := TakeContextTurn(c, d, s, app, at, turns, closing, |seen|, error);
      EndsHere(turns, closing, |seen| + 1);
      SeenNext(app, turns, closing, seen, now);
      KeptNext(app, turns, closing, kept, window);
      seen, kept := seen + [now], kept + [window];
    }
  }

  lemma BeginsAdapted(c: InputContext, d: Decoder, s: Source, app: Application, turns: seq<Turn>, closing: bool)
    requires c.Staged(d, s) && c.received == [] && c.start == 0 && !d.finalSeen && !d.installed
    requires d.detection.settings == app.settings && d.rules == app.rules && d.converter == app.converter
    ensures Adapted(c, d, s, app, None, turns, closing, 0, None)
    ensures AllSeen(app, turns, closing, []) && AllKept(app, turns, closing, [])
  {
    hide Detect, Detector.Remembers, Read, Utf8;
    NothingRead(app);
    StagedStores(c, d, s);
  }
}
