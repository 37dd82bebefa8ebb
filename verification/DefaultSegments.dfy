/** The raw text of a declaration, dealt out to queued events piece by piece (dtd.rs). */
module DefaultSegments {
  import opened Unicode
  import opened Lexical
  import opened Wrappers

  datatype Kind =
    | EntityDeclaration | AttlistDeclaration | EntityDuplicate | ElementDeclaration | NotationDeclaration
    | Default | NotStandalone | ElementPrefix | NotationPrefix | EntityPrefix | AttlistPrefix
  {
    /** Events that stand for a declaration and may carry its raw text. */
    predicate Declares() {
      EntityDeclaration? || AttlistDeclaration? || EntityDuplicate? || ElementDeclaration? || NotationDeclaration?
    }
  }

  datatype Event = Event(kind: Kind, raw: Option<string>)
  {
    function Text(): string { if raw.Some? then raw.value else "" }

    /** A declaration event that has no raw text yet. */
    predicate Open() { raw.None? && kind.Declares() }
  }

  /** All raw text of a queue, in order. */
  function Flat(queue: seq<Event>): string {
    if queue == [] then "" else queue[0].Text() + Flat(queue[1..])
  }

  lemma {:induction false} FlatConcat(a: seq<Event>, b: seq<Event>)
    ensures Flat(a + b) == Flat(a) + Flat(b)
  {
    if a == [] {
      assert a + b == b;
    } else {
      assert (a + b)[1..] == a[1..] + b;
      FlatConcat(a[1..], b);
      Associative(a[0].Text(), Flat(a[1..]), Flat(b));
    }
  }

  lemma FlatOne(e: Event)
    ensures Flat([e]) == e.Text()
  {
    assert [e][1..] == [];
    assert e.Text() + "" == e.Text();
  }

  /** A stretch of a declaration's raw text, with the delimiters that belong to it. */
  function Passed(raw: seq<LexChar>, opening: bool, from: nat, until: nat, closing: bool): string
    requires from <= until <= |raw|
  {
    (if opening then "<!" else "") + (Scalars(raw[from..until]) + if closing then ">" else "")
  }

  lemma ScalarsConcat(a: seq<LexChar>, b: seq<LexChar>)
    ensures Scalars(a + b) == Scalars(a) + Scalars(b)
  {}

  lemma NoTextAdded(s: string)
    ensures s + "" == s && "" + s == s
  {}

  /** Two stretches in one: only the first opens, only the last closes. */
  lemma Regroup(p: string, a: string, c: string, q: string, b: string, d: string)
    requires q == "" || (p == "" && a == "" && c == "")
    requires c == "" || (b == "" && d == "")
    ensures (p + q) + ((a + b) + (c + d)) == (p + (a + c)) + (q + (b + d))
  {
    NoTextAdded(p);
    NoTextAdded(a);
    NoTextAdded(c);
    NoTextAdded(d);
    NoTextAdded(q);
    NoTextAdded(b + d);
    NoTextAdded(p + (a + c));
    if q == "" && c == "" {
      Associative(a, b, d);
      Associative(p, a, b + d);
    }
  }

  lemma Extends(raw: seq<LexChar>, resumed: bool, started: bool, from: nat, offset: nat, closed: bool,
                end: nat, closing: bool)
    requires from <= offset <= end <= |raw| && (closed ==> offset == |raw| && started)
    requires !started ==> offset == from && !resumed
    ensures Passed(raw, !resumed, from, end, closed || closing)
         == Passed(raw, started && !resumed, from, offset, closed) + Passed(raw, !started, offset, end, closing && !closed)
  {
    assert raw[from..offset] + raw[offset..end] == raw[from..end];
    ScalarsConcat(raw[from..offset], raw[offset..end]);
    hide Scalars;
    var a, b := Scalars(raw[from..offset]), Scalars(raw[offset..end]);
    var opening := if resumed then "" else "<!";
    if !started {
      Regroup("", a, "", opening, b, if closing then ">" else "");
    } else if closed {
      Regroup(opening, a, ">", "", b, "");
    } else {
      Regroup(opening, a, "", "", b, if closing then ">" else "");
    }
  }

  /** What was passed is a prefix of the whole. */
  lemma Held(raw: seq<LexChar>, resumed: bool, started: bool, from: nat, offset: nat, closed: bool, before: string)
    requires from <= offset <= |raw| && (closed ==> offset == |raw| && started)
    requires !started ==> offset == from && !resumed
    ensures before + Passed(raw, started && !resumed, from, offset, closed)
         <= before + Passed(raw, !resumed, from, |raw|, true)
  {
    Extends(raw, resumed, started, from, offset, closed, |raw|, true);
    hide Passed;
    Associative(before, Passed(raw, started && !resumed, from, offset, closed),
                Passed(raw, !started, offset, |raw|, !closed));
  }

  /** A reference whose raw text is skipped, within the declaration. */
  datatype Parameter = Parameter(offset: nat, rawStart: nat, rawEnd: nat, disabled: bool)

  datatype Projection = Element | Notation

  /** The cursor's bookkeeping and the parser's queue and flags. Offsets count characters. */
  class Declaration {
    var pending: seq<Event>
    var rawOffset: nat
    var rawEvent: nat
    var rawStarted: bool
    var rawClosed: bool
    var parameterIndex: nat
    var declarationsSkipped: bool
    const raw: seq<LexChar>
    const parameters: seq<Parameter>
    const defaultEvents: bool
    const parameterDefaults: bool
    const closesDeclaration: bool
    const standalone: bool
    const silentDefaults: bool
    const direct: bool
    const duplicate: bool
    const projection: Option<Projection>
    const entityDefaults: bool
    /** The queue's text and the cursor's offset when the declaration was taken up. */
    ghost const before: string
    ghost const from: nat

    /** Nothing of the text is lost, doubled or out of order: what was passed is in the queue. */
    ghost predicate Conserved()
      reads this
    {
      && from <= rawOffset <= |raw| && rawEvent <= |pending|
      && Flat(pending) == before + Emitted() && Flat(pending[rawEvent..]) == ""
      && (rawClosed ==> rawOffset == |raw| && rawStarted) && (!rawStarted ==> rawOffset == from == 0)
      && (resumed ==> rawStarted)
    }

    /** A cursor that resumes inside a declaration found its opening delimiter already assigned. */
    ghost const resumed: bool

    ghost function Emitted(): string
      requires from <= rawOffset <= |raw|
      reads this
    {
      Passed(raw, rawStarted && !resumed, from, rawOffset, rawClosed)
    }

    /** The queue's text when everything was passed. */
    ghost function Whole(): string
      requires from <= |raw|
      reads this
    {
      before + Passed(raw, !resumed, from, |raw|, true)
    }

    /** A cursor at the start of a declaration's raw text. */
    constructor (raw: seq<LexChar>, pending: seq<Event>, first: nat, parameters: seq<Parameter>, flags: Flags)
      requires first <= |pending| && Flat(pending[first..]) == ""
      ensures Conserved() && this.raw == raw && !rawStarted && !resumed && before == Flat(pending)
      ensures this.pending == pending && this.parameters == parameters && parameterIndex == 0 && Has(flags)
    {
      this.raw, this.pending, this.parameters := raw, pending, parameters;
      rawOffset, rawEvent, rawStarted, rawClosed, parameterIndex := 0, first, false, false, 0;
      defaultEvents, parameterDefaults, closesDeclaration := flags.defaultEvents, flags.parameterDefaults, flags.closes;
      standalone, silentDefaults, direct, duplicate := flags.standalone, flags.silent, flags.direct, flags.duplicate;
      projection, entityDefaults, declarationsSkipped := flags.projection, flags.entityDefaults, flags.skipped;
      before, from, resumed := Flat(pending), 0, false;
      new;
      assert Flat(pending) + "" == Flat(pending);
    }

    /** `finish_value_raw` takes up a declaration behind its opening quote. */
    constructor Resume(raw: seq<LexChar>, pending: seq<Event>, first: nat, at: nat, parameters: seq<Parameter>,
                       flags: Flags)
      requires first <= |pending| && Flat(pending[first..]) == "" && at <= |raw|
      ensures Conserved() && this.raw == raw && rawStarted && resumed && from == rawOffset == at && !rawClosed
      ensures before == Flat(pending) && this.pending == pending && this.parameters == parameters && Has(flags)
      ensures parameterIndex == 0
    {
      this.raw, this.pending, this.parameters := raw, pending, parameters;
      rawOffset, rawEvent, rawStarted, rawClosed, parameterIndex := at, first, true, false, 0;
      defaultEvents, parameterDefaults, closesDeclaration := flags.defaultEvents, flags.parameterDefaults, flags.closes;
      standalone, silentDefaults, direct, duplicate := flags.standalone, flags.silent, flags.direct, flags.duplicate;
      projection, entityDefaults, declarationsSkipped := flags.projection, flags.entityDefaults, flags.skipped;
      before, from, resumed := Flat(pending), at, true;
      new;
      assert Flat(pending) + "" == Flat(pending) && raw[at..at] == [];
    }

    ghost predicate Has(flags: Flags)
      reads this
    {
      && defaultEvents == flags.defaultEvents && parameterDefaults == flags.parameterDefaults
      && closesDeclaration == flags.closes && standalone == flags.standalone && silentDefaults == flags.silent
      && direct == flags.direct && declarationsSkipped == flags.skipped
    }

    function PrefixKind(unconditional: bool): Kind
      reads this
    {
      if unconditional then Default
      else if duplicate then EntityDuplicate
      else if projection == Some(Element) then ElementPrefix
      else if projection == Some(Notation) then NotationPrefix
      else if entityDefaults then EntityPrefix
      else AttlistPrefix
    }

    /** Events that arrive in between carry no raw text of their own. */
    method Emit(kind: Kind, raw: Option<string>)
      requires Conserved() && (raw == None || raw == Some(""))
      modifies this`pending
      ensures Conserved() && pending == old(pending) + [Event(kind, raw)]
      ensures Flat(pending) == old(Flat(pending))
    {
      hide Flat, Passed;
      var event := Event(kind, raw);
      NoTextAdded(Flat(pending));
      FlatConcat(pending, [event]);
      FlatConcat(pending[rawEvent..], [event]);
      FlatOne(event);
      assert (pending + [event])[rawEvent..] == pending[rawEvent..] + [event];
      pending := pending + [event];
    }

    /** What a segment call passes on. */
    ghost function Fragment(end: nat, closing: bool): string
      requires rawOffset <= end <= |raw|
      reads this
    {
      Passed(raw, !rawStarted, rawOffset, end, closing && !rawClosed)
    }

    /** The fragment needs an event of its own, and that is charged. */
    ghost predicate Charged(end: nat, closing: bool, unconditional: bool)
      requires end <= |raw|
      reads this
    {
      && rawOffset <= end && Fragment(end, closing) != ""
      && (unconditional || (rawEvent <= |pending| && !AnyOpen(pending[rawEvent..])))
      && !silentDefaults && !direct
    }

    /** `declaration_default_segment`: the text up to `end` goes to the first open declaration event,
        or to an event of its own. False is a refused charge, which ends the parse. */
    method Segment(end: nat, closing: bool, unconditional: bool, permitted: bool) returns (ok: bool)
      requires Conserved() && end <= |raw| && (closing ==> end == |raw|)
      modifies this`pending, this`rawOffset, this`rawEvent, this`rawStarted, this`rawClosed
      ensures ok == (old(Charged(end, closing, unconditional)) ==> permitted)
      ensures !ok ==> pending == old(pending) && Flat(pending) <= Whole()
      ensures ok ==> rawOffset == if end < old(rawOffset) then old(rawOffset) else end
      ensures ok && end >= old(rawOffset) ==>
        && rawStarted && rawClosed == (old(rawClosed) || closing)
        && var dealt := !unconditional && old(AnyOpen(pending[rawEvent..]));
           Flat(pending) == old(Flat(pending)) + if silentDefaults && !dealt then "" else old(Fragment(end, closing))
      ensures ok && end < old(rawOffset) ==> unchanged(this)
      ensures ok && !silentDefaults ==> Conserved()
      ensures Kept(old(pending), pending, old(rawEvent), unconditional)
      ensures |pending| > |old(pending)| ==>
        && end >= old(rawOffset)
        && pending[|old(pending)|] == Event(PrefixKind(unconditional), Some(old(Fragment(end, closing))))
      ensures ok && end >= old(rawOffset) && !unconditional && old(Fragment(end, closing)) != "" ==>
        Dealt(old(pending), pending, old(rawEvent), old(Fragment(end, closing)))
    {
      hide Flat, AnyOpen, Passed, Event.Open, Event.Text, Kept, Dealt;
      KeptAll(pending, rawEvent, unconditional);
      if end < rawOffset {
        return true;
      }
      Held(raw, resumed, rawStarted, from, rawOffset, rawClosed, before);
      Extends(raw, resumed, rawStarted, from, rawOffset, rawClosed, end, closing);
      var text := Passed(raw, !rawStarted, rawOffset, end, closing && !rawClosed);
      Associative(before, Emitted(), text);
      NoTextAdded(Flat(pending));
      rawStarted, rawOffset, rawClosed := true, end, rawClosed || closing;
      if text == "" {
        return true;
      }
      var dealt := false;
      if !unconditional {
        dealt := Assign(text);
      }
      if !dealt && !silentDefaults {
        if !direct && !permitted {
          return false;
        }
        var event := Event(PrefixKind(unconditional), Some(text));
        if !unconditional { DealtStays(old(pending), pending, rawEvent, text, event); }
        KeptMore(old(pending), pending, rawEvent, unconditional, event);
        FlatMoreText(pending, event, text);
        pending := pending + [event];
      }
      rawEvent := |pending|;
      EmptyTail(pending);
      ok := true;
    }

    ghost predicate SameText(text: string, offset: nat, closed: bool, started: bool)
      reads this
    {
      Flat(pending) == text && rawOffset == offset && rawClosed == closed && rawStarted == started
    }

    /** The charge for the event that would have come next was refused. Charges are told apart by the
        length of the queue they are made at; what was dealt out before stays. */
    ghost predicate Refused(permitted: nat -> bool)
      requires from <= |raw|
      reads this
    {
      !direct && !permitted(|pending|) && Flat(pending) <= Whole()
    }

    /** `declaration_parameters_through`: deal out the text around every skipped reference passed. */
    method ParametersThrough(offset: Option<nat>, permitted: nat -> bool) returns (ok: bool)
      requires Conserved() && !silentDefaults && parameterIndex <= |parameters|
      requires forall p | p in parameters :: p.rawStart <= |raw| && p.rawEnd <= |raw|
      modifies this
      ensures ok ==> Conserved() && parameterIndex <= |parameters| && rawOffset >= old(rawOffset)
      ensures ok ==> forall i: nat | old(parameterIndex) <= i < parameterIndex && offset.Some? ::
        parameters[i].offset <= offset.value
      ensures ok ==> parameterIndex < |parameters| ==> offset.Some? && offset.value < parameters[parameterIndex].offset
      ensures ok && rawClosed ==> old(rawClosed) || closesDeclaration
      ensures ok && (!defaultEvents || !parameterDefaults) ==>
        SameText(old(Flat(pending)), old(rawOffset), old(rawClosed), old(rawStarted))
      ensures ok ==> (old(rawStarted) ==> rawStarted)
      ensures |old(pending)| <= |pending| && (!ok ==> defaultEvents && parameterDefaults && Refused(permitted))
    {
      hide Flat, Passed;
      ok := true;
      while parameterIndex < |parameters| && (offset.None? || parameters[parameterIndex].offset <= offset.value)
        invariant Conserved() && old(parameterIndex) <= parameterIndex <= |parameters| && rawOffset >= old(rawOffset)
        invariant forall i: nat | old(parameterIndex) <= i < parameterIndex && offset.Some? ::
          parameters[i].offset <= offset.value
        invariant rawClosed ==> old(rawClosed) || closesDeclaration
        invariant !defaultEvents || !parameterDefaults ==>
          SameText(old(Flat(pending)), old(rawOffset), old(rawClosed), old(rawStarted))
        invariant (old(rawStarted) ==> rawStarted) && |old(pending)| <= |pending|
        decreases |parameters| - parameterIndex
      {
        assert parameters[parameterIndex] in parameters;
        if parameterIndex + 1 < |parameters| { assert parameters[parameterIndex + 1] in parameters; }
        parameterIndex := parameterIndex + 1;
        ok := PassParameter(parameters[parameterIndex - 1], permitted);
        if !ok {
          return;
        }
        declarationsSkipped := declarationsSkipped || !standalone;
      }
    }

    /** The text before a skipped reference, and the reference with what follows it. */
    method PassParameter(parameter: Parameter, permitted: nat -> bool) returns (ok: bool)
      requires Conserved() && !silentDefaults && parameterIndex <= |parameters|
      requires parameter.rawStart <= |raw| && parameter.rawEnd <= |raw|
      requires parameterIndex < |parameters| ==> parameters[parameterIndex].rawStart <= |raw|
      modifies this`pending, this`rawOffset, this`rawEvent, this`rawStarted, this`rawClosed
      ensures ok ==> Conserved() && rawOffset >= old(rawOffset) && (old(rawStarted) ==> rawStarted)
      ensures ok && rawClosed ==> old(rawClosed) || closesDeclaration
      ensures ok && (!defaultEvents || !parameterDefaults) ==>
        SameText(old(Flat(pending)), old(rawOffset), old(rawClosed), old(rawStarted))
      ensures |old(pending)| <= |pending| && (!ok ==> defaultEvents && parameterDefaults && Refused(permitted))
    {
      hide Flat, Dealt, AnyOpen, Passed;
      ok := true;
      if defaultEvents && parameterDefaults {
        ok := Segment(parameter.rawStart, false, declarationsSkipped, permitted(|pending|));
        if !ok {
          return;
        }
      }
      if parameter.disabled && !standalone {
        Emit(NotStandalone, Some(""));
      }
      if defaultEvents && parameterDefaults {
        var last := parameterIndex == |parameters|;
        var end := if standalone then parameter.rawEnd
                   else if last then |raw| else parameters[parameterIndex].rawStart;
        ok := Segment(end, closesDeclaration && !standalone && last, true, permitted(|pending|));
      }
    }

    /** The end of a declaration: the rest of the text, and `>` either with it or by itself. */
    method Close(closingDefault: bool, unconditional: bool, permitted: nat -> bool) returns (ok: bool)
      requires Conserved() && !silentDefaults
      modifies this`pending, this`rawOffset, this`rawEvent, this`rawStarted, this`rawClosed
      ensures ok ==> Conserved() && rawStarted && rawOffset == |raw|
      ensures ok ==> rawClosed == (old(rawClosed) || closesDeclaration)
      ensures |old(pending)| <= |pending| && (!ok ==> Refused(permitted))
    {
      hide Flat, Dealt, AnyOpen, Passed;
      ok := Segment(|raw|, closesDeclaration && !closingDefault, unconditional, permitted(|pending|));
      if ok && closesDeclaration && closingDefault {
        ok := Segment(|raw|, true, true, permitted(|pending|));
      }
    }

    /** The first open declaration event takes the text, the others none. */
    method Assign(text: string) returns (dealt: bool)
      requires rawEvent <= |pending| && Flat(pending[rawEvent..]) == ""
      modifies this`pending
      ensures dealt == AnyOpen(old(pending)[rawEvent..])
      ensures Flat(pending) == Flat(old(pending)) + if dealt then text else ""
      ensures |pending| == |old(pending)| && (!dealt ==> pending == old(pending))
      ensures Kept(old(pending), pending, rawEvent, false) && Dealt(old(pending), pending, rawEvent, text)
    {
      hide Flat, Event.Open, Event.Text, AnyOpen, Dealing, Kept, Dealt;
      dealt := false;
      var i := rawEvent;
      ghost var queue := pending;
      NoText(queue[rawEvent..]);
      DealingStarts(queue, rawEvent, text);
      while i < |pending|
        invariant rawEvent <= i <= |pending| == |queue|
        invariant Dealing(queue, pending, rawEvent, i, text, dealt)
      {
        DealingStep(queue, pending, rawEvent, i, text, dealt);
        if pending[i].Open() {
          var event := pending[i].(raw := Some(if dealt then "" else text));
          pending := pending[..i] + [event] + pending[i + 1..];
          dealt := true;
        }
        i := i + 1;
      }
      DealingEnds(queue, pending, rawEvent, text, dealt);
    }
  }

  /** A queue only grows by an event; an event changes only by receiving raw text, and only if it
      was open and not passed before. */
  predicate Kept(queue: seq<Event>, now: seq<Event>, from: nat, unconditional: bool) {
    && |queue| <= |now| <= |queue| + 1
    && forall i: nat | i < |queue| ::
         && now[i].kind == queue[i].kind
         && (now[i] == queue[i] || (i >= from && !unconditional && queue[i].Open()))
  }

  lemma KeptAll(queue: seq<Event>, from: nat, unconditional: bool)
    ensures Kept(queue, queue, from, unconditional)
  {}

  lemma KeptMore(queue: seq<Event>, now: seq<Event>, from: nat, unconditional: bool, event: Event)
    requires Kept(queue, now, from, unconditional) && |now| == |queue|
    ensures Kept(queue, now + [event], from, unconditional)
  {}

  lemma EmptyTail(queue: seq<Event>)
    ensures Flat(queue[|queue|..]) == ""
  {}

  lemma FlatMoreText(queue: seq<Event>, event: Event, text: string)
    requires event.raw == Some(text)
    ensures Flat(queue + [event]) == Flat(queue) + text
  {
    FlatConcat(queue, [event]);
    FlatOne(event);
  }

  /** The first open event holds the text, every later one an empty string. */
  predicate Dealt(queue: seq<Event>, now: seq<Event>, from: nat, text: string) {
    forall j: nat | from <= j < |queue| && queue[j].Open() ::
      j < |now| && now[j].raw == Some(if AnyOpen(queue[from..j]) then "" else text)
  }

  lemma DealtMore(queue: seq<Event>, now: seq<Event>, from: nat, text: string, i: nat, event: Event)
    requires from <= i < |queue| == |now| && Dealt(queue[..i], now[..i], from, text)
    requires queue[i].Open() ==> event.raw == Some(if AnyOpen(queue[from..i]) then "" else text)
    ensures Dealt(queue[..i + 1], (now[..i] + [event] + now[i + 1..])[..i + 1], from, text)
  {
    var next := now[..i] + [event] + now[i + 1..];
    hide AnyOpen, Event.Open;
    forall j: nat | from <= j < i + 1 && queue[j].Open()
      ensures next[..i + 1][j].raw == Some(if AnyOpen(queue[..i + 1][from..j]) then "" else text)
    {
      assert queue[..i + 1][from..j] == queue[from..j];
      if j < i { assert queue[..i][from..j] == queue[from..j] && queue[..i][j] == queue[j] && next[j] == now[..i][j]; }
    }
  }

  lemma DealtStays(queue: seq<Event>, now: seq<Event>, from: nat, text: string, event: Event)
    requires Dealt(queue, now, from, text)
    ensures Dealt(queue, now + [event], from, text)
  {}

  /** The events before `i` were visited. */
  ghost predicate Dealing(queue: seq<Event>, now: seq<Event>, from: nat, i: nat, text: string, dealt: bool) {
    && from <= i <= |queue| == |now| && now[i..] == queue[i..]
    && dealt == AnyOpen(queue[from..i]) && (!dealt ==> now == queue)
    && Flat(now[..i]) == Flat(queue[..from]) + (if dealt then text else "")
    && (forall j: nat | from <= j < |queue| :: queue[j].Text() == "") && Dealt(queue[..i], now[..i], from, text)
    && forall j: nat | j < i ::
         now[j].kind == queue[j].kind && (now[j] == queue[j] || (j >= from && queue[j].Open()))
  }

  lemma DealingStarts(queue: seq<Event>, from: nat, text: string)
    requires from <= |queue| && forall j: nat | j < |queue| - from :: queue[from..][j].Text() == ""
    ensures Dealing(queue, queue, from, from, text, false)
  {
    assert queue[from..from] == [];
    assert Flat(queue[..from]) + "" == Flat(queue[..from]);
    forall j: nat | from <= j < |queue| ensures queue[j].Text() == "" {
      assert queue[from..][j - from] == queue[j];
    }
  }

  lemma DealingStep(queue: seq<Event>, now: seq<Event>, from: nat, i: nat, text: string, dealt: bool)
    requires i < |queue| && Dealing(queue, now, from, i, text, dealt)
    ensures i < |now| &&
      if now[i].Open() then
        var event := now[i].(raw := Some(if dealt then "" else text));
        Dealing(queue, now[..i] + [event] + now[i + 1..], from, i + 1, text, true)
      else Dealing(queue, now, from, i + 1, text, dealt)
  {
    hide Flat, AnyOpen, Event.Text, Event.Open, Dealt;
    Unvisited(queue, now, i);
    AnyMore(queue, from, i);
    var event := if now[i].Open() then now[i].(raw := Some(if dealt then "" else text)) else now[i];
    DealtMore(queue, now, from, text, i, event);
    FlatMore(now, i, event);
    Replaced(now, i, event);
    TextOf(event);
    NoTextAdded(Flat(queue[..from]));
    NoTextAdded(Flat(now[..i]));
    NoTextAdded(Flat(now[..i]) + event.Text());
  }

  lemma TextOf(event: Event)
    ensures event.Open() ==> event.raw.None?
    ensures event.Text() == if event.raw.Some? then event.raw.value else ""
  {}

  lemma Unvisited(queue: seq<Event>, now: seq<Event>, i: nat)
    requires i < |queue| == |now| && now[i..] == queue[i..]
    ensures now[i] == queue[i] && now[i + 1..] == queue[i + 1..]
  {
    assert now[i] == now[i..][0] && queue[i] == queue[i..][0];
    assert now[i + 1..] == now[i..][1..] && queue[i + 1..] == queue[i..][1..];
  }

  lemma Replaced(queue: seq<Event>, i: nat, event: Event)
    requires i < |queue|
    ensures
      var next := queue[..i] + [event] + queue[i + 1..];
      && |next| == |queue| && next[i] == event && next[i + 1..] == queue[i + 1..]
      && (forall j: nat | j < i :: next[j] == queue[j]) && (event == queue[i] ==> next == queue)
  {}

  lemma DealingEnds(queue: seq<Event>, now: seq<Event>, from: nat, text: string, dealt: bool)
    requires Dealing(queue, now, from, |queue|, text, dealt) && Flat(queue[from..]) == ""
    ensures |now| == |queue| && dealt == AnyOpen(queue[from..]) && (!dealt ==> now == queue)
    ensures Flat(now) == Flat(queue) + if dealt then text else ""
    ensures Kept(queue, now, from, false) && Dealt(queue, now, from, text)
  {
    hide Flat;
    assert queue[..|queue|] == queue;
    assert now[..|now|] == now && queue[from..|queue|] == queue[from..];
    FlatConcat(queue[..from], queue[from..]);
    assert queue[..from] + queue[from..] == queue && Flat(queue[..from]) + "" == Flat(queue[..from]);
  }

  lemma {:induction false} NoText(queue: seq<Event>)
    requires Flat(queue) == ""
    ensures forall i: nat | i < |queue| :: queue[i].Text() == ""
  {
    if queue != [] { NoText(queue[1..]); }
  }

  lemma AnyMore(queue: seq<Event>, from: nat, i: nat)
    requires from <= i < |queue|
    ensures AnyOpen(queue[from..i + 1]) <==> AnyOpen(queue[from..i]) || queue[i].Open()
  {
    var a, b := queue[from..i], queue[from..i + 1];
    assert b == a + [queue[i]];
    if k: nat :| k < |a| && a[k].Open() { assert b[k].Open(); }
    if queue[i].Open() { assert b[i - from].Open(); }
  }

  /** Replacing one event. */
  lemma FlatMore(queue: seq<Event>, i: nat, event: Event)
    requires i < |queue|
    ensures Flat((queue[..i] + [event] + queue[i + 1..])[..i + 1]) == Flat(queue[..i]) + event.Text()
  {
    assert (queue[..i] + [event] + queue[i + 1..])[..i + 1] == queue[..i] + [event];
    FlatConcat(queue[..i], [event]);
    FlatOne(event);
  }

  // -------------------------------------------------------------- whole declarations

  /** What happens between the start of a declaration and its end. */
  datatype Action =
    | Deal(end: nat, closing: bool, unconditional: bool, permitted: bool)
    | Arrive(kind: Kind, raw: Option<string>)

  predicate Legal(raw: seq<LexChar>, actions: seq<Action>) {
    forall a | a in actions ::
      match a
      case Deal(end, closing, _, _) => end <= |raw| && (closing ==> end == |raw|)
      case Arrive(_, text) => text == None || text == Some("")
  }

  /** Any legal run of segments and events that ends closed leaves the whole declaration in the
      queue: every character once and in order. Only a refused charge can stop it. */
  method Distribute(raw: seq<LexChar>, pending: seq<Event>, first: nat, flags: Flags, actions: seq<Action>)
    returns (ok: bool, queue: seq<Event>)
    requires first <= |pending| && Flat(pending[first..]) == "" && Legal(raw, actions) && !flags.silent
    ensures ok && (exists a | a in actions :: a.Deal? && a.closing) ==>
      Flat(queue) == Flat(pending) + ("<!" + (Scalars(raw) + ">"))
    ensures !ok ==> !flags.direct && exists a | a in actions :: a.Deal? && !a.permitted
    ensures !ok ==> Flat(queue) <= Flat(pending) + ("<!" + (Scalars(raw) + ">"))
  {
    hide Flat, Kept, Dealt, AnyOpen;
    var d := new Declaration(raw, pending, first, [], flags);
    var i := 0;
    ok := true;
    while i < |actions| && ok
      invariant i <= |actions| && fresh(d) && d.raw == raw && d.before == Flat(pending) && d.from == 0 && !d.resumed
      invariant !d.silentDefaults && (ok ==> d.Conserved())
      invariant ok ==> forall j: nat | j < i && actions[j].Deal? && actions[j].closing :: d.rawClosed
      invariant !ok ==> !flags.direct && exists a | a in actions :: a.Deal? && !a.permitted
      invariant !ok ==> Flat(d.pending) <= d.Whole()
    {
      assert actions[i] in actions;
      match actions[i] {
        case Deal(end, closing, unconditional, permitted) => ok := d.Segment(end, closing, unconditional, permitted);
        case Arrive(kind, text) => d.Emit(kind, text);
      }
      i := i + 1;
    }
    queue := d.pending;
    assert raw[0..|raw|] == raw;
  }

  function ClosingQuote(raw: seq<LexChar>, at: nat, from: nat): (end: nat)
    requires at < |raw| && from <= |raw|
    ensures from <= end <= |raw|
    decreases |raw| - from
  {
    if from == |raw| then from
    else if raw[from].Shown() == raw[at].Shown() then from + 1
    else ClosingQuote(raw, at, from + 1)
  }

  /** `finish_value_raw`: a declaration whose value was built elsewhere continues behind its opening
      quote. What is left of its text follows what the queue already holds. */
  method FinishValueRaw(raw: seq<LexChar>, pending: seq<Event>, first: nat, quote: nat, parameters: seq<Parameter>,
                        flags: Flags, permitted: nat -> bool)
    returns (ok: bool, queue: seq<Event>)
    requires first <= |pending| && Flat(pending[first..]) == "" && quote < |raw|
    requires forall p | p in parameters :: p.rawStart <= |raw| && p.rawEnd <= |raw|
    requires !flags.silent && flags.parameterDefaults
    ensures
      var left := if flags.defaultEvents then Scalars(raw[quote..]) + (if flags.closes then ">" else "") else "";
      ok ==> Flat(queue) == Flat(pending) + left
    ensures !ok ==> flags.defaultEvents && !flags.direct && |pending| <= |queue| && !permitted(|queue|)
    ensures !ok ==> Flat(queue) <= Flat(pending) + (Scalars(raw[quote..]) + ">")
  {
    hide Flat, Dealt, AnyOpen;
    var d := new Declaration.Resume(raw, pending, first, quote, parameters, flags);
    NoTextAdded(Flat(pending));
    var valueSkipped := d.declarationsSkipped;
    if d.defaultEvents && valueSkipped {
      ok := d.Segment(ClosingQuote(raw, quote, quote + 1), false, false, permitted(|d.pending|));
      if !ok {
        return ok, d.pending;
      }
    }
    ok := d.ParametersThrough(None, permitted);
    if ok && d.defaultEvents {
      ok := d.Close(d.declarationsSkipped, valueSkipped, permitted);
    }
    queue := d.pending;
    assert raw[quote..|raw|] == raw[quote..];
    var left := Scalars(raw[quote..]) + (if flags.closes then ">" else "");
    assert "" + left == left;
  }

  predicate AnyOpen(queue: seq<Event>) { exists i: nat | i < |queue| :: queue[i].Open() }

  datatype Flags = Flags(
    defaultEvents: bool, parameterDefaults: bool, closes: bool, standalone: bool, silent: bool, direct: bool,
    duplicate: bool, projection: Option<Projection>, entityDefaults: bool, skipped: bool)
}
