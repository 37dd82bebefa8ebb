/** One-shot meanings of the resumable token scans (encoding.rs). */
module Scanners {
  import opened Unicode
  import opened Wrappers
  import opened Errors
  import opened Names

  /** What a scan of the available text reports. */
  datatype ScanResult = Incomplete | End(at: nat) | Fail(kind: ErrorKind, at: nat)

  // ---------------------------------------------------- automata without lookahead

  datatype Move<S> = Go(next: S) | Stop(result: ScanResult)

  datatype Ran<S> = Ended(index: nat, state: S) | Stopped(result: ScanResult)

  /** Run an automaton over items of known width that start at a byte index. */
  function Run<S, T>(step: (S, T, nat) -> Move<S>, width: T -> nat, items: seq<T>, index: nat, state: S): Ran<S> {
    if items == [] then Ended(index, state)
    else
      match step(state, items[0], index)
      case Stop(result) => Stopped(result)
      case Go(next) => Run(step, width, items[1..], index + width(items[0]), next)
  }

  /** Saved progress is enough: running over a prefix first gives the same outcome. */
  lemma {:induction false} RunConcat<S, T>(step: (S, T, nat) -> Move<S>, width: T -> nat,
                                          a: seq<T>, b: seq<T>, index: nat, state: S)
    ensures Run(step, width, a + b, index, state)
         == match Run(step, width, a, index, state)
            case Stopped(result) => Stopped(result)
            case Ended(at, reached) => Run(step, width, b, at, reached)
    decreases |a|
  {
    if a == [] {
      assert a + b == b;
    } else {
      assert (a + b)[1..] == a[1..] + b;
      match step(state, a[0], index)
      case Stop(_) =>
      case Go(next) => RunConcat(step, width, a[1..], b, index + width(a[0]), next);
    }
  }

  lemma RunOne<S, T>(step: (S, T, nat) -> Move<S>, width: T -> nat, item: T, index: nat, state: S)
    ensures Run(step, width, [item], index, state)
         == match step(state, item, index)
            case Stop(result) => Stopped(result)
            case Go(next) => Ended(index + width(item), next)
  {
    match step(state, item, index)
    case Stop(_) =>
    case Go(next) => assert Run(step, width, [], index + width(item), next) == Ended(index + width(item), next);
  }

  lemma RunNothing<S, T>(step: (S, T, nat) -> Move<S>, width: T -> nat, index: nat, state: S)
    ensures Run(step, width, [], index, state) == Ended(index, state)
  {}

  /** A run that stops does so at one item, in the state of those before it. */
  lemma {:induction false} RunStops<S, T>(step: (S, T, nat) -> Move<S>, width: T -> nat,
                                         items: seq<T>, index: nat, state: S) returns (k: nat)
    requires Run(step, width, items, index, state).Stopped?
    ensures k < |items| && Run(step, width, items[..k], index, state).Ended?
    ensures
      var before := Run(step, width, items[..k], index, state);
      step(before.state, items[k], before.index) == Stop(Run(step, width, items, index, state).result)
    decreases |items|
  {
    match step(state, items[0], index)
    case Stop(_) =>
      k := 0;
      RunNothing(step, width, index, state);
    case Go(next) =>
      k := RunStops(step, width, items[1..], index + width(items[0]), next);
      assert items[..k + 1][1..] == items[1..][..k];
      k := k + 1;
  }

  lemma RunStopsAt<S, T>(step: (S, T, nat) -> Move<S>, width: T -> nat, items: seq<T>, index: nat, state: S, k: nat)
    requires k < |items| && Run(step, width, items[..k], index, state).Ended?
    ensures
      var before := Run(step, width, items[..k], index, state);
      step(before.state, items[k], before.index).Stop? ==>
        Run(step, width, items, index, state) == Stopped(step(before.state, items[k], before.index).result)
  {
    assert items == items[..k] + items[k..];
    RunConcat(step, width, items[..k], items[k..], index, state);
  }

  function ByteWidth(): Byte -> nat { (_: Byte) => 1 }

  function CharWidth(): char -> nat { (c: char) => Width(c) }

  /** Bytes advance the index by their number, characters by their byte length. */
  lemma {:induction false} RunBytes<S>(step: (S, Byte, nat) -> Move<S>, items: seq<Byte>, index: nat, state: S)
    ensures
      var ran := Run(step, ByteWidth(), items, index, state);
      ran.Ended? ==> ran.index == index + |items|
    decreases |items|
  {
    if items != [] && step(state, items[0], index).Go? {
      RunBytes(step, items[1..], index + 1, step(state, items[0], index).next);
    }
  }

  lemma {:induction false} RunChars<S>(step: (S, char, nat) -> Move<S>, items: string, index: nat, state: S)
    ensures
      var ran := Run(step, CharWidth(), items, index, state);
      ran.Ended? ==> ran.index == index + Len(items)
    decreases |items|
  {
    if items != [] && step(state, items[0], index).Go? {
      RunChars(step, items[1..], index + Width(items[0]), step(state, items[0], index).next);
    }
  }

  /** The report of a scan that reached the end of the available text. */
  function ScanReport<S>(ran: Ran<S>, limit: nat, limitAt: nat): ScanResult {
    match ran
    case Stopped(result) => result
    case Ended(index, _) => if index > limit then Fail(LimitExceeded, limitAt) else Incomplete
  }

  // ------------------------------------------------------------------ element tags

  const GT: Byte := 0x3E
  const APOS: Byte := 0x27
  const QUOTE: Byte := 0x22
  const BANG: Byte := 0x21
  const DASH: Byte := 0x2D
  const QUESTION: Byte := 0x3F
  const PERCENT: Byte := 0x25
  const OPEN: Byte := 0x5B
  const CLOSE: Byte := 0x5D

  /** A start tag ends at the first `>` outside quotes; a `<` is never allowed, not even at the limit. */
  function ElementStep(limit: nat): (Byte, Byte, nat) -> Move<Byte> {
    (quote: Byte, b: Byte, index: nat) =>
      if b == LT then Stop(Fail(InvalidToken, index))
      else if index >= limit then Stop(Fail(LimitExceeded, limit))
      else if quote != 0 then Go(if b == quote then 0 else quote)
      else if b == GT then Stop(End(index + 1))
      else Go(if b == APOS || b == QUOTE then b else 0)
  }

  function ElementRun(bytes: seq<Byte>, limit: nat): Ran<Byte>
    requires bytes != []
  {
    Run(ElementStep(limit), ByteWidth(), bytes[1..], 1, 0)
  }

  function ElementTag(bytes: seq<Byte>, limit: nat): ScanResult
    requires bytes != []
  {
    if limit == 0 then Fail(LimitExceeded, 0) else ScanReport(ElementRun(bytes, limit), limit, limit)
  }

  // ---------------------------------------------------------------------- end tags

  /** An end tag is a name, optional whitespace and `>`. The state: whether whitespace was seen. */
  function EndTagStep(rules: NameRules, limit: nat): (bool, char, nat) -> Move<bool> {
    (afterName: bool, c: char, index: nat) =>
      if index + Width(c) > limit then Stop(Fail(LimitExceeded, index))
      else if c == '>' then Stop(End(index + 1))
      else if Whitespace(c) then Go(true)
      else if afterName || !rules.IsNameChar(c) then Stop(Fail(InvalidToken, index))
      else Go(false)
  }

  function EndTagRun(rules: NameRules, text: string, limit: nat): Ran<bool>
    requires |text| >= 2
  {
    Run(EndTagStep(rules, limit), CharWidth(), text[2..], 2, false)
  }

  function EndTag(rules: NameRules, text: string, limit: nat): ScanResult
    requires |text| >= 2
  {
    ScanReport(EndTagRun(rules, text, limit), limit, limit)
  }

  // -------------------------------------------------------------------- references

  /** Productions [66] and [68] of XML 1.0, character by character after the ampersand. */
  datatype Reference = Opening | AfterHash | Decimal | AfterX | Hexadecimal | InName

  predicate DecimalDigit(c: char) { '0' <= c <= '9' }

  predicate HexDigit(c: char) { DecimalDigit(c) || 'a' <= c <= 'f' || 'A' <= c <= 'F' }

  function ReferenceStep(rules: NameRules, limit: nat): (Reference, char, nat) -> Move<Reference> {
    (phase: Reference, c: char, index: nat) =>
      if index >= limit then Stop(Fail(LimitExceeded, 0))
      else
        var bad := Stop(Fail(InvalidToken, index));
        match phase
        case Opening => if c == '#' then Go(AfterHash) else if rules.IsNameStart(c) then Go(InName) else bad
        case AfterHash => if c == 'x' then Go(AfterX) else if DecimalDigit(c) then Go(Decimal) else bad
        case Decimal => if c == ';' then Stop(End(index)) else if DecimalDigit(c) then Go(Decimal) else bad
        case AfterX => if HexDigit(c) then Go(Hexadecimal) else bad
        case Hexadecimal => if c == ';' then Stop(End(index)) else if HexDigit(c) then Go(Hexadecimal) else bad
        case InName => if c == ';' then Stop(End(index)) else if rules.IsNameChar(c) then Go(InName) else bad
  }

  function ReferenceRun(rules: NameRules, text: string, limit: nat): Ran<Reference>
    requires text != ""
  {
    Run(ReferenceStep(rules, limit), CharWidth(), text[1..], 1, Opening)
  }

  /** The offset of the `;` that ends a reference. */
  function ReferenceScan(rules: NameRules, text: string, limit: nat): ScanResult
    requires text != ""
  {
    ScanReport(ReferenceRun(rules, text, limit), limit, 0)
  }

  // ---------------------------------------------------------------- prolog literals

  function LiteralStep(quote: char, limit: nat): ((), char, nat) -> Move<()> {
    (state: (), c: char, index: nat) =>
      if index >= limit then Stop(Fail(LimitExceeded, 0))
      else if !IsXmlChar(c) then Stop(Fail(InvalidToken, index))
      else if c == quote then Stop(End(index + 1))
      else Go(())
  }

  function LiteralRun(text: string, limit: nat): Ran<()>
    requires text != ""
  {
    Run(LiteralStep(text[0], limit), CharWidth(), text[1..], 1, ())
  }

  function Literal(text: string, limit: nat): ScanResult
    requires text != ""
  {
    ScanReport(LiteralRun(text, limit), limit, 0)
  }

  // --------------------------------------------------- comments and instructions

  predicate OccursAt(bytes: seq<Byte>, pattern: seq<Byte>, i: nat) {
    i + |pattern| <= |bytes| && bytes[i..i + |pattern|] == pattern
  }

  /** The first occurrence of a pattern at or after an index. */
  function FindFrom(bytes: seq<Byte>, pattern: seq<Byte>, from: nat): (at: Option<nat>)
    ensures at.Some? ==> from <= at.value && OccursAt(bytes, pattern, at.value)
    ensures at.Some? ==> forall i: nat | from <= i < at.value :: !OccursAt(bytes, pattern, i)
    ensures at.None? ==> forall i: nat | from <= i :: !OccursAt(bytes, pattern, i)
    decreases |bytes| - from
  {
    if from + |pattern| > |bytes| then None
    else if bytes[from..from + |pattern|] == pattern then Some(from)
    else FindFrom(bytes, pattern, from + 1)
  }

  const COMMENT_END: seq<Byte> := [DASH, DASH, GT]
  const PI_END: seq<Byte> := [QUESTION, GT]

  function Delimited(bytes: seq<Byte>, pattern: seq<Byte>, from: nat, limit: nat): ScanResult {
    match FindFrom(bytes, pattern, from)
    case Some(at) => if at + |pattern| <= limit then End(at + |pattern|) else Fail(LimitExceeded, limit)
    case None => if |bytes| > limit then Fail(LimitExceeded, limit) else Incomplete
  }

  lemma OccursStable(a: seq<Byte>, more: seq<Byte>, pattern: seq<Byte>, i: nat)
    requires i + |pattern| <= |a|
    ensures OccursAt(a + more, pattern, i) == OccursAt(a, pattern, i)
  {
    assert (a + more)[i..i + |pattern|] == a[i..i + |pattern|];
  }

  /** More bytes cannot change a report already made. */
  lemma DelimitedStable(a: seq<Byte>, more: seq<Byte>, pattern: seq<Byte>, from: nat, limit: nat)
    requires pattern != [] && Delimited(a, pattern, from, limit) != Incomplete
    ensures Delimited(a + more, pattern, from, limit) == Delimited(a, pattern, from, limit)
  {
    var first, whole := FindFrom(a, pattern, from), FindFrom(a + more, pattern, from);
    if first.Some? {
      OccursStable(a, more, pattern, first.value);
      forall i: nat | from <= i < first.value ensures !OccursAt(a + more, pattern, i) {
        OccursStable(a, more, pattern, i);
      }
    } else if whole.Some? && whole.value + |pattern| <= |a| {
      OccursStable(a, more, pattern, whole.value);
    }
  }
}
