/** Reading a whole input in turns of feeding, looking and consuming (encoding.rs). */
module Turns {
  import opened Unicode
  import opened Wrappers
  import opened Errors
  import opened Lexical
  import opened Positions
  import opened Sources
  import opened SourceClass
  import opened Codecs
  import opened CodecSpellings
  import opened Decoding
  import opened Detection
  import opened DecoderClass
  import opened Sessions

  /** One turn: bytes arrive, an adapter may forget what lies before `retain`, the parser consumes up
      to `take` characters, and then looks at up to `length` characters after `from` unread ones. */
  datatype Turn = Turn(bytes: seq<Byte>, retain: nat, take: nat, from: nat, length: nat)

  /** What the parser sees: the unread text, the position of a part of it, and the decoding error. */
  datatype Seen = Seen(unread: seq<LexChar>, position: Position, error: Option<ErrorKind>)

  // ------------------------------------------------------------------- the reference

  function Fed(turns: seq<Turn>): seq<Byte> {
    if turns == [] then [] else Fed(turns[..|turns| - 1]) + turns[|turns| - 1].bytes
  }

  /** How many characters were consumed after some turns, the last of them perhaps final. */
  function Consumed(app: Application, turns: seq<Turn>, final: bool): (n: nat)
    ensures n <= |Read(app, Fed(turns), final).units|
    decreases |turns|
  {
    if turns == [] then 0
    else
      var n := |turns| - 1;
      Min(Consumed(app, turns[..n], false) + turns[n].take, |Read(app, Fed(turns), final).units|)
  }

  /** What a turn shows of a reading of which some characters are consumed. */
  function Look(r: Reading, taken: nat, turn: Turn): Seen
    requires taken <= |r.units|
  {
    var rest := r.units[taken..];
    var i := Min(turn.from, |rest|);
    var j := i + Min(turn.length, |rest| - i);
    Seen(Lex(rest), AsPosition(After(Origin(r.mark), r.units[..taken + i]), RawSum(rest[i..j])), r.error)
  }

  /** What the last of some turns shows, from all the input at once. */
  function SeenAfter(app: Application, turns: seq<Turn>, final: bool): Seen
    requires turns != []
  {
    Look(Read(app, Fed(turns), final), Consumed(app, turns, final), turns[|turns| - 1])
  }

  lemma FedNext(turns: seq<Turn>, i: nat)
    requires i < |turns|
    ensures Fed(turns[..i + 1]) == Fed(turns[..i]) + turns[i].bytes
  {
    assert turns[..i + 1][..i] == turns[..i];
  }

  lemma ConsumedNext(app: Application, turns: seq<Turn>, i: nat, final: bool)
    requires i < |turns|
    ensures Consumed(app, turns[..i + 1], final)
         == Min(Consumed(app, turns[..i], false) + turns[i].take, |Read(app, Fed(turns[..i + 1]), final).units|)
  {
    hide Read;
    assert turns[..i + 1][..i] == turns[..i];
  }

  /** A list of what was seen is the list the reference gives. */
  ghost predicate AllSeen(app: Application, turns: seq<Turn>, closing: bool, seen: seq<Seen>) {
    |seen| <= |turns| && forall i: nat | 0 < i <= |seen| ::
      seen[i - 1] == SeenAfter(app, turns[..i], closing && i == |turns|)
  }

  // ------------------------------------------------------------------ on a source

  /** Look at a part of the unread text. */
  method LookAt(source: Source, turn: Turn, ghost r: Reading) returns (unread: seq<LexChar>, position: Position)
    requires source.Valid() && source.anchor.None? && Stores(source.ledger, r)
    ensures Seen(unread, position, r.error) == Look(r, Taken(source.ledger, r), turn)
  {
    hide Source.Valid, RawSum, After, Len, IsBoundary;
    var rest := source.Remaining();
    var i := Min(turn.from, |rest|);
    var j := i + Min(turn.length, |rest| - i);
    CharIndexAt(rest, i);
    CharIndexAt(rest, j);
    OffsetsIncrease(rest, i, j);
    position := source.PositionAt(Len(rest[..i]), Len(rest[i..j]));
    unread := UnreadLex(source);
    UnreadLength(source.ledger);
    StoredUnread(source.ledger, r);
  }

  lemma UnreadLength(l: Ledger)
    requires l.Ordered()
    ensures |l.Unread()| == |l.units| - l.consumed
  {}

  method UnreadLex(source: Source) returns (unread: seq<LexChar>)
    requires source.Valid()
    ensures unread == Lex(source.ledger.units[source.ledger.consumed..])
  {
    var l := source.ledger;
    CharIndexAt(l.Stored(), l.consumed - l.dropped);
    LexSlice(l.units[l.dropped..], l.consumed - l.dropped);
    assert l.units[l.dropped..][l.consumed - l.dropped..] == l.units[l.consumed..];
    unread := source.text.Contents()[CharIndex(source.text.text, source.cursor)..];
  }

  /** Consume some characters, as many as there are. */
  method Take(source: Source, count: nat) returns (taken: seq<LexChar>)
    requires source.Valid()
    modifies source, source.text
    ensures source.Valid() && source.encoding == old(source.encoding)
    ensures source.ledger.units == old(source.ledger.units) && source.ledger.start == old(source.ledger.start)
    ensures
      var l := old(source.ledger);
      && source.ledger.consumed == l.consumed + Min(count, |l.units| - l.consumed)
      && taken == Lex(l.units[l.consumed..source.ledger.consumed])
    ensures source.retainNativeInput == old(source.retainNativeInput)
    ensures source.retainNativeInput ==> source.text.text == old(source.text.text)
  {
    hide Source.Valid, Len, IsBoundary, Lex;
    SourceOrdered(source);
    UnreadLength(source.ledger);
    var rest := source.Remaining();
    var k := Min(count, |rest|);
    var unread := UnreadLex(source);
    CharIndexAt(rest, k);
    taken := unread[..k];
    LexTake(source.ledger.units, source.ledger.consumed, k);
    source.Consume(Len(rest[..k]));
  }

  lemma LexTake(units: seq<Unit>, from: nat, k: nat)
    requires from + k <= |units|
    ensures Lex(units[from..])[..k] == Lex(units[from..from + k])
  {}

  // ------------------------------------------------------------------- plain sessions

  /** Whether the last of some turns is the end of the input. */
  predicate Ends(turns: seq<Turn>, closing: bool, i: nat) { closing && 0 < i == |turns| }

  /** A source holds what its input reads as, and what was consumed of it. */
  ghost predicate Holds(source: Source, r: Reading, taken: nat, error: Option<ErrorKind>)
    reads source, source.text
  {
    && source.Valid() && source.anchor.None?
    && Stores(source.ledger, r) && Taken(source.ledger, r) == taken && error == r.error
  }

  /** A decoder that may be fed. */
  ghost predicate Ready(d: Decoder, source: Source, app: Application, at: Option<(seq<Byte>, bool)>, all: seq<Byte>)
    reads d, d.detection, source, source.text
  {
    d.Valid(source) && Serves(d, app, at) && d.received == all && !d.finalSeen
  }

  /** What was taken stays taken when more is decoded. */
  lemma TakenStays(was: Ledger, now: Ledger, before: Reading, after: Reading)
    requires Stores(was, before) && Stores(now, after) && now.consumed == was.consumed
    requires was.units != [] ==> now.start == was.start
    requires before.units != [] || before.mark != 0 ==> after.mark == before.mark
    ensures Taken(now, after) == Taken(was, before)
  {}

  /** A failure stays the failure of everything that follows it. */
  lemma HoldsStill(source: Source, app: Application, all: seq<Byte>, bytes: seq<Byte>, final: bool, taken: nat,
                   error: Option<ErrorKind>)
    requires Holds(source, Read(app, all, false), taken, error) && error.Some?
    ensures Holds(source, Read(app, all + bytes, final), taken, error)
  {
    hide Read, Source.Valid;
    ReadGrows(app, all, bytes, final);
  }

  method FeedTurn(d: Decoder, source: Source, app: Application, ghost at: Option<(seq<Byte>, bool)>,
                  ghost all: seq<Byte>, ghost taken: nat, bytes: seq<Byte>, final: bool, failure: Option<ErrorKind>)
    returns (error: Option<ErrorKind>, ghost now: Option<(seq<Byte>, bool)>)
    requires Holds(source, Read(app, all, false), taken, failure)
    requires failure.None? ==> Ready(d, source, app, at, all)
    modifies d, d.detection, source, source.text
    ensures Holds(source, Read(app, all + bytes, final), taken, error)
    ensures error.None? && !final ==> Ready(d, source, app, now, all + bytes)
  {
    hide Read, Stores, Source.Valid, Decoder.Valid, Serves;
    error, now := failure, at;
    if failure.Some? {
      HoldsStill(source, app, all, bytes, final, taken, failure);
      d.AppendPending(bytes);
    } else {
      ghost var was := source.ledger;
      error, now := Pump(d, source, app, bytes, final, at);
      ReadGrows(app, all, bytes, final);
      TakenStays(was, source.ledger, Read(app, all, false), Read(app, all + bytes, final));
    }
  }

  lemma TakeKeeps(was: Ledger, now: Ledger, r: Reading, count: nat)
    requires Stores(was, r) && now.Ordered() && now.units == was.units && now.start == was.start
    requires now.consumed == was.consumed + Min(count, |was.units| - was.consumed)
    ensures Stores(now, r) && Taken(now, r) == Min(Taken(was, r) + count, |r.units|)
    ensures was.units[was.consumed..now.consumed] == r.units[Taken(was, r)..Taken(now, r)]
  {}

  /** Consume and look, with a decoder that goes on or without one. */
  method Proceed(source: Source, turn: Turn, ghost r: Reading, ghost taken: nat, error: Option<ErrorKind>)
    returns (text: seq<LexChar>, seen: Seen)
    requires Holds(source, r, taken, error)
    modifies source, source.text
    ensures Holds(source, r, Min(taken + turn.take, |r.units|), error)
    ensures seen == Look(r, Min(taken + turn.take, |r.units|), turn)
    ensures taken <= |r.units| && text == Lex(r.units[taken..Min(taken + turn.take, |r.units|)])
    ensures source.encoding == old(source.encoding) && source.ledger.units == old(source.ledger.units)
    ensures source.ledger.start == old(source.ledger.start) && source.ledger.consumed >= old(source.ledger.consumed)
    ensures source.retainNativeInput == old(source.retainNativeInput)
    ensures source.retainNativeInput ==> source.text.text == old(source.text.text)
  {
    hide Source.Valid, Look, Lex, Stores;
    ghost var was := source.ledger;
    SourceOrdered(source);
    text := Take(source, turn.take);
    SourceOrdered(source);
    TakeKeeps(was, source.ledger, r, turn.take);
    var unread, position := LookAt(source, turn, r);
    seen := Seen(unread, position, error);
  }

  lemma ReadyParts(d: Decoder, source: Source, app: Application, at: Option<(seq<Byte>, bool)>, all: seq<Byte>)
    requires Ready(d, source, app, at, all)
    ensures d.Follows(source.encoding, source.ledger) && Serves(d, app, at) && d.received == all && !d.finalSeen
  {
    hide Source.Valid, Decode, Detect, NextOf, Detector.Remembers;
  }

  /** Consuming and compacting do not disturb the decoder. */
  lemma StillFollows(d: Decoder, encoding: Encoding, was: Ledger, now: Ledger)
    requires d.Follows(encoding, was) && now.units == was.units && now.start == was.start
    requires now.consumed >= was.consumed
    ensures d.Follows(encoding, now)
  {
    hide Decode, Detect, NextOf, Detector.Remembers;
  }

  lemma StillReady(d: Decoder, source: Source, app: Application, at: Option<(seq<Byte>, bool)>, all: seq<Byte>,
                   encoding: Encoding, was: Ledger)
    requires d.Follows(encoding, was) && Serves(d, app, at) && d.received == all && !d.finalSeen
    requires source.Valid() && source.anchor.None? && source.encoding == encoding
    requires source.ledger.units == was.units && source.ledger.start == was.start
    requires source.ledger.consumed >= was.consumed
    ensures Ready(d, source, app, at, all)
  {
    hide Source.Valid, Serves, Decoder.Follows;
    StillFollows(d, encoding, was, source.ledger);
  }

  lemma TextGrows(before: seq<Unit>, after: seq<Unit>, from: nat, until: nat)
    requires before <= after && from <= |before| && from <= until <= |after|
    ensures Lex(before[..from]) + Lex(after[from..until]) == Lex(after[..until])
  {
    assert before[..from] == after[..from];
  }

  lemma SeenNext(app: Application, turns: seq<Turn>, closing: bool, seen: seq<Seen>, now: Seen)
    requires AllSeen(app, turns, closing, seen) && |seen| < |turns|
    requires now == SeenAfter(app, turns[..|seen| + 1], closing && |seen| + 1 == |turns|)
    ensures AllSeen(app, turns, closing, seen + [now])
  {
    hide SeenAfter;
  }

  function ReadTo(app: Application, turns: seq<Turn>, closing: bool, i: nat): Reading
    requires i <= |turns|
  {
    Read(app, Fed(turns[..i]), Ends(turns, closing, i))
  }

  function ConsumedTo(app: Application, turns: seq<Turn>, closing: bool, i: nat): (n: nat)
    requires i <= |turns|
    ensures n <= |ReadTo(app, turns, closing, i).units|
  {
    Consumed(app, turns[..i], Ends(turns, closing, i))
  }

  /** What one turn does to the reference. */
  lemma TurnRead(app: Application, turns: seq<Turn>, closing: bool, i: nat)
    requires i < |turns|
    ensures
      var was, now := ReadTo(app, turns, closing, i), ReadTo(app, turns, closing, i + 1);
      var taken := ConsumedTo(app, turns, closing, i);
      && was == Read(app, Fed(turns[..i]), false)
      && now == Read(app, Fed(turns[..i]) + turns[i].bytes, Ends(turns, closing, i + 1))
      && was.units <= now.units && taken <= |was.units|
      && ConsumedTo(app, turns, closing, i + 1) == Min(taken + turns[i].take, |now.units|)
      && SeenAfter(app, turns[..i + 1], Ends(turns, closing, i + 1))
           == Look(now, ConsumedTo(app, turns, closing, i + 1), turns[i])
  {
    hide Read, Look;
    FedNext(turns, i);
    ConsumedNext(app, turns, i, Ends(turns, closing, i + 1));
    ReadGrows(app, Fed(turns[..i]), turns[i].bytes, Ends(turns, closing, i + 1));
  }

  /** Everything seen and handed over in the first turns. */
  ghost predicate Shown(app: Application, turns: seq<Turn>, closing: bool, seen: seq<Seen>, text: seq<LexChar>) {
    && AllSeen(app, turns, closing, seen)
    && text == Lex(ReadTo(app, turns, closing, |seen|).units[..ConsumedTo(app, turns, closing, |seen|)])
  }

  /** What one turn hands over and shows. */
  ghost predicate TurnShows(app: Application, turns: seq<Turn>, closing: bool, i: nat, more: seq<LexChar>, seen: Seen)
    requires i < |turns|
  {
    var r := ReadTo(app, turns, closing, i + 1);
    var from, until := ConsumedTo(app, turns, closing, i), ConsumedTo(app, turns, closing, i + 1);
    from <= until && more == Lex(r.units[from..until]) && seen == Look(r, until, turns[i])
  }

  lemma ShownNext(app: Application, turns: seq<Turn>, closing: bool, seen: seq<Seen>, text: seq<LexChar>,
                  more: seq<LexChar>, now: Seen)
    requires |seen| < |turns| && Shown(app, turns, closing, seen, text)
    requires TurnShows(app, turns, closing, |seen|, more, now)
    ensures Shown(app, turns, closing, seen + [now], text + more)
  {
    hide ReadTo, ConsumedTo, Look, Lex, Ends, SeenAfter;
    var i := |seen|;
    TurnRead(app, turns, closing, i);
    TextGrows(ReadTo(app, turns, closing, i).units, ReadTo(app, turns, closing, i + 1).units,
              ConsumedTo(app, turns, closing, i), ConsumedTo(app, turns, closing, i + 1));
    EndsHere(turns, closing, i + 1);
    SeenNext(app, turns, closing, seen, now);
  }

  lemma EndsHere(turns: seq<Turn>, closing: bool, i: nat)
    ensures i > 0 ==> Ends(turns, closing, i) == (closing && i == |turns|)
  {}

  /** One turn of a plain session. */
  method TakeTurn(d: Decoder, source: Source, app: Application, ghost at: Option<(seq<Byte>, bool)>,
                  turns: seq<Turn>, closing: bool, i: nat, failure: Option<ErrorKind>)
    returns (error: Option<ErrorKind>, more: seq<LexChar>, seen: Seen, ghost now: Option<(seq<Byte>, bool)>)
    requires i < |turns|
    requires Holds(source, ReadTo(app, turns, closing, i), ConsumedTo(app, turns, closing, i), failure)
    requires failure.None? ==> Ready(d, source, app, at, Fed(turns[..i]))
    modifies d, d.detection, source, source.text
    ensures Holds(source, ReadTo(app, turns, closing, i + 1), ConsumedTo(app, turns, closing, i + 1), error)
    ensures error.None? && !Ends(turns, closing, i + 1) ==> Ready(d, source, app, now, Fed(turns[..i + 1]))
    ensures TurnShows(app, turns, closing, i, more, seen)
  {
    hide Read, Look, Stores, Taken, Source.Valid, Decoder.Valid, Serves, Consumed, Fed, Lex, Ready, Holds;
    hide ReadTo, ConsumedTo, SeenAfter, Decoder.Follows;
    TurnRead(app, turns, closing, i);
    FedNext(turns, i);
    var final := closing && i + 1 == |turns|;
    ghost var all, taken := Fed(turns[..i]), ConsumedTo(app, turns, closing, i);
    error, now := FeedTurn(d, source, app, at, all, taken, turns[i].bytes, final, failure);
    ghost var encoding, was := source.encoding, source.ledger;
    if error.None? && !final { ReadyParts(d, source, app, now, Fed(turns[..i + 1])); }
    more, seen := Proceed(source, turns[i], ReadTo(app, turns, closing, i + 1), taken, error);
    HoldsValid(source, ReadTo(app, turns, closing, i + 1), ConsumedTo(app, turns, closing, i + 1), error);
    if error.None? && !final { StillReady(d, source, app, now, Fed(turns[..i + 1]), encoding, was); }
  }

  lemma HoldsValid(source: Source, r: Reading, taken: nat, error: Option<ErrorKind>)
    requires Holds(source, r, taken, error)
    ensures source.Valid() && source.anchor.None? && taken <= |r.units|
    ensures Lex(source.ledger.units[source.ledger.consumed..]) == Lex(r.units[taken..])
  {
    StoredUnread(source.ledger, r);
  }

  /** Read an input in turns, consuming between feeds: what is seen in every turn, and the text handed
      over in the end, are those of the whole input. */
  method DecodeChunks(app: Application, turns: seq<Turn>, closing: bool)
    returns (seen: seq<Seen>, text: seq<LexChar>)
    ensures |seen| == |turns| && AllSeen(app, turns, closing, seen)
    ensures text == Lex(Read(app, Fed(turns), closing && turns != []).units)
  {
    hide Read, Look, Stores, Source.Valid, Decoder.Valid, Serves, Consumed, Fed, Lex, Ready, Holds, Shown;
    hide ReadTo, ConsumedTo, AllSeen;
    var source := new Source(false);
    var d := new Decoder(app.settings, app.rules, app.converter, source);
    ghost var at: Option<(seq<Byte>, bool)> := None;
    var error: Option<ErrorKind> := None;
    seen, text := [], [];
    Begins(d, source, app, turns, closing);
    while |seen| < |turns|
      invariant |seen| <= |turns| && fresh(source) && fresh(source.text) && fresh(d) && fresh(d.detection)
      invariant Shown(app, turns, closing, seen, text)
      invariant Holds(source, ReadTo(app, turns, closing, |seen|), ConsumedTo(app, turns, closing, |seen|), error)
      invariant error.None? && !Ends(turns, closing, |seen|) ==> Ready(d, source, app, at, Fed(turns[..|seen|]))
      decreases |turns| - |seen|
    {
      var more, now;
      error, more, now, at := TakeTurn(d, source, app, at, turns, closing, |seen|, error);
      ShownNext(app, turns, closing, seen, text, more, now);
      text, seen := text + more, seen + [now];
    }
    HoldsValid(source, ReadTo(app, turns, closing, |seen|), ConsumedTo(app, turns, closing, |seen|), error);
    var unread := UnreadLex(source);
    AllShown(app, turns, closing, seen, text);
    text := text + unread;
  }

  lemma Begins(d: Decoder, source: Source, app: Application, turns: seq<Turn>, closing: bool)
    requires d.Valid(source) && d.encoding.None? && d.received == [] && !d.finalSeen && source.ledger.consumed == 0
    requires d.detection.settings == app.settings && d.rules == app.rules && d.converter == app.converter
    ensures Holds(source, ReadTo(app, turns, closing, 0), ConsumedTo(app, turns, closing, 0), None)
    ensures Ready(d, source, app, None, Fed(turns[..0])) && Shown(app, turns, closing, [], [])
  {
    hide Detect, Decode, Source.Valid, Detector.Remembers, Read;
    NothingRead(app);
    SourceOrdered(source);
  }

  lemma AllShown(app: Application, turns: seq<Turn>, closing: bool, seen: seq<Seen>, text: seq<LexChar>)
    requires |seen| == |turns| && Shown(app, turns, closing, seen, text)
    ensures AllSeen(app, turns, closing, seen)
    ensures
      var r, taken := ReadTo(app, turns, closing, |turns|), ConsumedTo(app, turns, closing, |turns|);
      && text + Lex(r.units[taken..]) == Lex(r.units)
      && r == Read(app, Fed(turns), closing && turns != [])
  {
    hide Read, AllSeen, SeenAfter, Lex, Consumed, Fed;
    assert turns[..|turns|] == turns;
    var units, taken := ReadTo(app, turns, closing, |turns|).units, ConsumedTo(app, turns, closing, |turns|);
    TextGrows(units, units, taken, |units|);
    assert units[..|units|] == units && units[taken..|units|] == units[taken..];
  }

  // ---------------------------------------------------------------- the end of input

  /** How input ends whose rest begins no character. */
  ghost function ErrorAt(codec: Codec, rest: seq<Byte>, final: bool): Option<ErrorKind>
    requires codec.Valid()
  {
    if rest == [] then None
    else if !IsTruncated(codec, rest) then Some(InvalidToken)
    else if !final then None
    else if (codec.encoding == Utf16Le || codec.encoding == Utf16Be) && |rest| == 1 then Some(UnclosedToken)
    else Some(PartialCharacter)
  }

  /** A part of the input is spelled characters, and no character begins behind it. */
  ghost predicate ReadsTo(codec: Codec, body: seq<Byte>, units: seq<Unit>, k: nat)
    requires codec.Valid()
  {
    k <= |body| && Encodes(codec, body[..k], units) && BeginsNothing(codec, body[k..])
  }

  /** Behind the mark input reads as the characters it spells, in one way only; it ends without an error
      when nothing is left over, or when more may follow what is. */
  lemma ReadExactly(app: Application, encoding: Encoding, values: seq<int>, bytes: seq<Byte>, mark: nat, final: bool)
    requires (BuiltIn(encoding) || |values| == 256) && mark <= |bytes|
    ensures
      var codec := Codec(encoding, values, app.converter, app.rules);
      var r := ReadAs(app, encoding, values, bytes, mark, final);
      && (exists k: nat :: ReadsTo(codec, bytes[mark..], r.units, k))
      && forall units, k: nat | ReadsTo(codec, bytes[mark..], units, k) ::
           r == Reading(mark, units, ErrorAt(codec, bytes[mark..][k..], final))
  {
    hide Decode, Encodes, BeginsNothing, IsTruncated;
    var codec, body := Codec(encoding, values, app.converter, app.rules), bytes[mark..];
    var d := Decode(codec, body);
    DecodesExactly(codec, body, d.units, d.rest);
    assert ReadsTo(codec, body, d.units, |body| - |d.rest|);
    forall units, k: nat | ReadsTo(codec, body, units, k)
      ensures ReadAs(app, encoding, values, bytes, mark, final) == Reading(mark, units, ErrorAt(codec, body[k..], final))
    {
      DecodesExactly(codec, body, units, body[k..]);
    }
  }

  // ---------------------------------------------------------------- encoded text

  /** Texts that an encoding can hold. */
  predicate Holding(encoding: Encoding, s: string) {
    match encoding
    case Utf8Encoding => true
    case Utf16Le => true
    case Utf16Be => true
    case Latin1 => forall i: nat | i < |s| :: s[i] as int < 0x100
    case Ascii => forall i: nat | i < |s| :: s[i] as int < 0x80
    case SingleByte => false
    case MultiByte => false
  }

  /** A text in one of these encodings. */
  function Encoded(encoding: Encoding, s: string): seq<Byte>
    requires Holding(encoding, s)
  {
    if encoding == Utf8Encoding then Utf8(s)
    else if encoding == Latin1 || encoding == Ascii then seq(|s|, i requires 0 <= i < |s| => s[i] as int)
    else EncodeUtf16All(encoding == Utf16Le, s)
  }

  /** Encoded text reads as itself, behind the mark that detection found or without one. */
  lemma EncodedReads(app: Application, encoding: Encoding, mark: seq<Byte>, s: string)
    requires Holding(encoding, s)
    requires Detect(app.settings, mark + Encoded(encoding, s), true) == Chosen(encoding, |mark|)
    ensures Read(app, mark + Encoded(encoding, s), true) == Reading(|mark|, FixedUnits(encoding, s), None)
  {
    hide Detect, Decode;
    var codec := Codec(encoding, [], app.converter, app.rules);
    assert (mark + Encoded(encoding, s))[|mark|..] == Encoded(encoding, s);
    if encoding == Utf8Encoding {
      Utf8RoundTrip(codec, s);
    } else if encoding == Latin1 || encoding == Ascii {
      OctetsEncode(codec, s);
      AcceptsExactly(codec, Encoded(encoding, s), FixedUnits(encoding, s));
    } else {
      Utf16RoundTrip(codec, s);
    }
  }

  /** One byte a character, equal to its code. */
  lemma {:induction false} OctetsEncode(codec: Codec, s: string)
    requires (codec.encoding == Latin1 || codec.encoding == Ascii) && Holding(codec.encoding, s)
    ensures Encodes(codec, Encoded(codec.encoding, s), FixedUnits(codec.encoding, s))
  {
    if s != "" {
      var b, units := Encoded(codec.encoding, s), FixedUnits(codec.encoding, s);
      OctetsEncode(codec, s[1..]);
      assert b[1..] == Encoded(codec.encoding, s[1..]) && units[1..] == FixedUnits(codec.encoding, s[1..]);
      assert b[..1] == [s[0] as int] && units[0] == Unit(Raw(s[0]), 1);
    }
  }

  lemma FixedLex(encoding: Encoding, s: string)
    ensures Lex(FixedUnits(encoding, s)) == Plain(s)
  {}

  /** Where a character of encoded text stands: behind the mark and the bytes of the text before it, on line
      one at the start, with a mark counted as a column. */
  lemma PlacesInInput(encoding: Encoding, mark: nat, s: string, i: nat)
    requires Holding(encoding, s) && i <= |s|
    ensures
      var place := After(Origin(mark), FixedUnits(encoding, s)[..i]);
      && Holding(encoding, s[..i]) && place.byteIndex == mark + |Encoded(encoding, s[..i])|
      && place.at == Advance(Coordinates(1, if mark == 0 then 0 else 1, false), s[..i])
  {
    hide Advance;
    assert FixedUnits(encoding, s)[..i] == FixedUnits(encoding, s[..i]);
    EncodedLength(encoding, s[..i]);
  }

  lemma {:induction false} EncodedLength(encoding: Encoding, s: string)
    requires Holding(encoding, s)
    ensures RawSum(FixedUnits(encoding, s)) == |Encoded(encoding, s)|
  {
    hide Encode;
    if s != "" {
      EncodedLength(encoding, s[1..]);
      assert FixedUnits(encoding, s)[1..] == FixedUnits(encoding, s[1..]);
    }
  }

  /** Section 4 of RFC 3629, sections 2.1 and 2.2 of RFC 2781, and the codes of ISO-8859-1 and US-ASCII, for
      an incremental decoder: encoded text is given back whatever the split, and however much is consumed
      between the feeds. */
  method GiveBack(app: Application, encoding: Encoding, mark: seq<Byte>, s: string, turns: seq<Turn>)
    returns (text: seq<LexChar>, error: Option<ErrorKind>)
    requires Holding(encoding, s)
    requires Detect(app.settings, mark + Encoded(encoding, s), true) == Chosen(encoding, |mark|)
    requires turns != [] && Fed(turns) == mark + Encoded(encoding, s)
    ensures text == Plain(s) && error == None
  {
    hide Detect, Read, Encoded, Plain, Consumed, Holding;
    EncodedReads(app, encoding, mark, s);
    FixedLex(encoding, s);
    var seen;
    seen, text := DecodeChunks(app, turns, true);
    assert turns[..|turns|] == turns;
    error := seen[|turns| - 1].error;
  }

  /** The application's map for an encoding that is not built in, when it may be installed. */
  ghost predicate Installs(app: Application, mark: seq<Byte>, body: seq<Byte>) {
    && Detect(app.settings, mark + body, true).Rejected?
    && Detect(app.settings, mark + body, true).kind == UnknownEncoding
    && app.values.Some? && MapAllowed(app.values.value, app.allowMultibyte)
    && if mark == [] then !StartsWith(body, UTF8_BOM) else mark == UTF8_BOM && app.settings.requested.None?
  }

  /** The same for such a map: bytes give the map's characters and the application's conversions. */
  method GiveBackMapped(app: Application, mark: seq<Byte>, body: seq<Byte>, units: seq<Unit>, turns: seq<Turn>)
    returns (text: seq<LexChar>, error: Option<ErrorKind>)
    requires Installs(app, mark, body)
    requires
      var values := app.values.value;
      Encodes(Codec(CustomEncoding(values), values, app.converter, app.rules), body, units)
    requires turns != [] && Fed(turns) == mark + body
    ensures text == Lex(units) && error == None
  {
    MappedReads(app, mark, body, units);
    hide Detect, Read, Consumed, Encodes, MapAllowed, StartsWith;
    var seen;
    seen, text := DecodeChunks(app, turns, true);
    assert turns[..|turns|] == turns;
    error := seen[|turns| - 1].error;
  }

  lemma MappedReads(app: Application, mark: seq<Byte>, body: seq<Byte>, units: seq<Unit>)
    requires Installs(app, mark, body)
    requires
      var values := app.values.value;
      Encodes(Codec(CustomEncoding(values), values, app.converter, app.rules), body, units)
    ensures Read(app, mark + body, true) == Reading(|mark|, units, None)
  {
    hide Detect, Decode, Encodes, CustomEncoding, MapAllowed;
    var values := app.values.value;
    AllowedSize(values, app.allowMultibyte);
    assert (mark + body)[|mark|..] == body && (mark == [] ==> mark + body == body);
    if mark != [] { assert (mark + body)[..3] == mark; }
    AcceptsExactly(Codec(CustomEncoding(values), values, app.converter, app.rules), body, units);
  }

  lemma AllowedSize(values: seq<int>, multibyte: bool)
    requires MapAllowed(values, multibyte)
    ensures |values| == 256
  {}

  /** Without a protocol encoding, UTF-16 with its mark is always such an input. */
  lemma MarkedUtf16(settings: Settings, little: bool, rest: seq<Byte>)
    requires settings.requested.None?
    ensures
      var mark := if little then UTF16LE_BOM else UTF16BE_BOM;
      Detect(settings, mark + rest, true) == Chosen(if little then Utf16Le else Utf16Be, |mark|)
  {
    var mark := if little then UTF16LE_BOM else UTF16BE_BOM;
    var all := mark + rest;
    assert all[..2] == mark && all[0] == mark[0];
    assert |all| >= 3 ==> all[..3][0] == mark[0];
  }

  /** Unmarked bytes that detection takes for a mark or for UTF-16: the mark's own character first, or
      a zero where UTF-16 has one behind an ASCII character. */
  predicate Mistaken(settings: Settings, bytes: seq<Byte>) {
    || StartsWith(bytes, UTF8_BOM)
    || (|bytes| >= 2 && (bytes[0] == 0 || (bytes[1] == 0 && (!settings.externalContent || bytes[0] == LT))))
  }

  /** Without a protocol encoding, UTF-8 is such an input exactly when it is marked or not mistaken, and
      no declaration says otherwise. */
  lemma DetectedUtf8(settings: Settings, mark: seq<Byte>, s: string)
    requires settings.requested.None? && (mark == [] || mark == UTF8_BOM)
    ensures
      var utf8 := Chosen(Utf8Encoding, |mark|);
      && (Detect(settings, mark + Utf8(s), true) == utf8 <==>
           (mark == UTF8_BOM || !Mistaken(settings, Utf8(s))) && FromContent(settings, |mark|, Utf8(s), true) == utf8)
      && (!OpensDeclaration(Utf8(s)) ==> FromContent(settings, |mark|, Utf8(s), true) == utf8)
  {
    hide FromContent, OpensDeclaration, Named, Utf8;
    var bytes := Utf8(s);
    var all := mark + bytes;
    MarkKept(settings, |mark|, bytes);
    assert all[|mark|..] == bytes;
    if mark == UTF8_BOM {
      assert all[..3] == UTF8_BOM && all[..2] == UTF8_BOM[..2];
    } else {
      assert all == bytes;
      NoLead(s);
      assert |bytes| >= 2 ==> bytes[..2][0] == bytes[0];
      if |bytes| >= 3 { MarkKept(settings, 3, bytes[3..]); }
    }
  }

  /** The declaration decides about the encoding, not about the mark. */
  lemma MarkKept(settings: Settings, skip: nat, content: seq<Byte>)
    ensures
      var choice := FromContent(settings, skip, content, true);
      && (choice.Chosen? ==> choice.skip == skip)
      && (!OpensDeclaration(content) ==> choice == Chosen(Utf8Encoding, skip))
  {
    hide Declared;
  }

  /** Encoded text never starts with a byte of a mark of UTF-16. */
  lemma NoLead(s: string)
    ensures Utf8(s) == [] || Utf8(s)[0] < 0xF8
  {
    if s != "" { assert Utf8(s)[0] == Encode(s[0])[0]; }
  }
}
