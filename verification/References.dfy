/** References and prolog literals: resumable scans, decoding, and the bounded fast path
    (encoding.rs, reference.rs, lib.rs). */
module References {
  import opened Unicode
  import opened Wrappers
  import opened Chunks
  import opened Errors
  import opened Names
  import opened Scanners
  import opened ScanClass

  // ------------------------------------------------------------ saved progress

  /** Progress of a character scan after the first character: a boundary that was reached undecided. */
  ghost predicate Saved<S>(checked: nat, step: (S, char, nat) -> Move<S>, start: S, text: string) {
    checked == 0 || exists k: nat | 1 <= k <= |text| ::
      checked == Len(text[..k]) && Run(step, CharWidth(), text[1..k], 1, start).Ended?
  }

  /** Saved progress stays valid when more text arrives. */
  lemma SavedGrows<S>(checked: nat, step: (S, char, nat) -> Move<S>, start: S, text: string, more: string)
    requires Saved(checked, step, start, text)
    ensures Saved(checked, step, start, text + more)
  {
    if checked != 0 {
      var k: nat :| 1 <= k <= |text| && checked == Len(text[..k]) && Run(step, CharWidth(), text[1..k], 1, start).Ended?;
      assert (text + more)[..k] == text[..k] && (text + more)[1..k] == text[1..k];
    }
  }

  /** Resuming at saved progress finishes the scan of the whole text. */
  lemma SavedRun<S>(checked: nat, step: (S, char, nat) -> Move<S>, start: S, text: string) returns (k: nat)
    requires text != "" && IsAscii(text[0]) && Saved(checked, step, start, text)
    ensures 1 <= k <= |text| && (if checked > 1 then checked else 1) == Len(text[..k])
    ensures
      var ran := Run(step, CharWidth(), text[1..k], 1, start);
      ran.Ended? && ran.index == Len(text[..k])
    ensures Run(step, CharWidth(), text[1..], 1, start)
         == Run(step, CharWidth(), text[k..], Len(text[..k]), Run(step, CharWidth(), text[1..k], 1, start).state)
  {
    k := 1;
    assert text[..1] == [text[0]] && Len([text[0]]) == Width(text[0]) + Len("");
    if checked > 1 {
      k :| 1 <= k <= |text| && checked == Len(text[..k]) && Run(step, CharWidth(), text[1..k], 1, start).Ended?;
    }
    assert text[1..k] + text[k..] == text[1..];
    RunConcat(step, CharWidth(), text[1..k], text[k..], 1, start);
    RunChars(step, text[1..k], 1, start);
    assert text[..k][..1] == text[..1] && text[..k][1..] == text[1..k];
    LenSplit(text[..k], 1);
  }

  /** The two scans refuse every character at or past the limit with the same report. */
  ghost predicate Bounded<S(!new)>(step: (S, char, nat) -> Move<S>, limit: nat) {
    forall s: S, c: char, index: nat | index >= limit :: step(s, c, index) == Stop(Fail(LimitExceeded, 0))
  }

  lemma Unbounded(rules: NameRules, quote: char, limit: nat)
    ensures Bounded(ReferenceStep(rules, limit), limit) && Bounded(LiteralStep(quote, limit), limit)
  {}

  /** A report on a prefix is the report on every longer text, whatever the limit. */
  lemma Decided<S(!new)>(step: (S, char, nat) -> Move<S>, start: S, text: string, more: string, limit: nat)
    requires text != "" && Bounded(step, limit)
    requires ScanReport(Run(step, CharWidth(), text[1..], 1, start), limit, 0) != Incomplete
    ensures ScanReport(Run(step, CharWidth(), (text + more)[1..], 1, start), limit, 0)
         == ScanReport(Run(step, CharWidth(), text[1..], 1, start), limit, 0)
  {
    assert (text + more)[1..] == text[1..] + more;
    RunConcat(step, CharWidth(), text[1..], more, 1, start);
    var ran := Run(step, CharWidth(), text[1..], 1, start);
    if ran.Ended? && more != "" {
      assert step(ran.state, more[0], ran.index) == Stop(Fail(LimitExceeded, 0));
      assert more == [more[0]] + more[1..];
    }
  }

  /** References and prolog literals need no restriction: no split of the input changes a report. */
  lemma SplitsInvisible(rules: NameRules, text: string, more: string, limit: nat)
    requires text != ""
    ensures ReferenceScan(rules, text, limit) != Incomplete ==>
      ReferenceScan(rules, text + more, limit) == ReferenceScan(rules, text, limit)
    ensures Literal(text, limit) != Incomplete ==> Literal(text + more, limit) == Literal(text, limit)
  {
    hide ReferenceStep, LiteralStep;
    Unbounded(rules, text[0], limit);
    if ReferenceScan(rules, text, limit) != Incomplete {
      Decided(ReferenceStep(rules, limit), Opening, text, more, limit);
    }
    if Literal(text, limit) != Incomplete {
      Decided(LiteralStep(text[0], limit), (), text, more, limit);
    }
  }

  // ------------------------------------------------------------------ references

  /** The automaton's state can be read off the text: nothing but the offset needs saving. */
  function Phase(s: string): Reference {
    if s == "" then Opening
    else if s[0] != '#' then InName
    else if |s| == 1 then AfterHash
    else if s[1] != 'x' then Decimal
    else if |s| == 2 then AfterX
    else Hexadecimal
  }

  lemma {:induction false} PhaseAt(rules: NameRules, limit: nat, s: string)
    requires Run(ReferenceStep(rules, limit), CharWidth(), s, 1, Opening).Ended?
    ensures Run(ReferenceStep(rules, limit), CharWidth(), s, 1, Opening).state == Phase(s)
  {
    if s != "" {
      var n := |s| - 1;
      var step := ReferenceStep(rules, limit);
      assert s == s[..n] + [s[n]];
      RunConcat(step, CharWidth(), s[..n], [s[n]], 1, Opening);
      PhaseAt(rules, limit, s[..n]);
      var before := Run(step, CharWidth(), s[..n], 1, Opening);
      RunOne(step, CharWidth(), s[n], before.index, before.state);
    }
  }

  /** What the flags of the code say about the offset of a character in a numeric reference. */
  lemma DigitsStart(text: string, k: nat)
    requires 1 <= k <= |text| && text[0] == '&'
    ensures (Len(text[..k]) == 1) == (k == 1)
    ensures |text| >= 2 && text[1] == '#' ==>
      && (Len(text[..k]) == 2) == (k == 2)
      && (|text| >= 3 && text[2] == 'x' ==> (Len(text[..k]) == 3) == (k == 3))
  {
    assert Len(text[..1]) == 1 by { assert text[..1] == "&"; }
    if k >= 2 && text[1] == '#' {
      assert text[..2] == "&#" && Len("&#") == 2;
      if k >= 3 && text[2] == 'x' { assert text[..3] == "&#x" && Len("&#x") == 3; }
    }
  }

  /** One iteration of a resumable scan, seen from the scan of the whole text. */
  lemma Iteration<S>(step: (S, char, nat) -> Move<S>, text: string, k: nat, start: S, index: nat, state: S)
    requires 1 <= k < |text| && Run(step, CharWidth(), text[1..k], 1, start) == Ended(index, state)
    ensures
      var tail := Run(step, CharWidth(), text[k..], index, state);
      match step(state, text[k], index)
      case Stop(result) => tail == Stopped(result)
      case Go(next) =>
        && tail == Run(step, CharWidth(), text[k + 1..], index + Width(text[k]), next)
        && Run(step, CharWidth(), text[1..k + 1], 1, start) == Ended(index + Width(text[k]), next)
  {
    hide Width;
    assert text[k..][1..] == text[k + 1..] && text[1..k] + [text[k]] == text[1..k + 1];
    RunConcat(step, CharWidth(), text[1..k], [text[k]], 1, start);
    RunOne(step, CharWidth(), text[k], index, state);
  }

  lemma SavedHere<S>(step: (S, char, nat) -> Move<S>, text: string, start: S)
    requires text != "" && Run(step, CharWidth(), text[1..], 1, start).Ended?
    ensures Saved(Len(text), step, start, text)
  {
    assert text[..|text|] == text && text[1..|text|] == text[1..];
  }

  /** What the flags of the code decide is the automaton's move. */
  predicate FlagsAllow(rules: NameRules, text: string, index: nat, c: char) {
    var numeric := |text| >= 2 && text[1] == '#';
    var hexadecimal := numeric && |text| >= 3 && text[2] == 'x';
    if c == ';' then index != 1 && !(numeric && index == if hexadecimal then 3 else 2)
    else if index == 1 then numeric || rules.IsNameStart(c)
    else if numeric then (index == 2 && c == 'x') || (if hexadecimal then HexDigit(c) else DecimalDigit(c))
    else rules.IsNameChar(c)
  }

  lemma ReferenceMove(rules: NameRules, limit: nat, text: string, k: nat)
    requires 1 <= k < |text| && text[0] == '&' && Len(text[..k]) < limit
    ensures
      var index := Len(text[..k]);
      ReferenceStep(rules, limit)(Phase(text[1..k]), text[k], index)
        == if !FlagsAllow(rules, text, index, text[k]) then Stop(Fail(InvalidToken, index))
           else if text[k] == ';' then Stop(End(index))
           else Go(Phase(text[1..k + 1]))
  {
    DigitsStart(text, k);
    var before, after, c := text[1..k], text[1..k + 1], text[k];
    assert after == before + [c];
    var move := ReferenceStep(rules, limit)(Phase(before), c, Len(text[..k]));
    var allowed := FlagsAllow(rules, text, Len(text[..k]), c);
    match Phase(before) {
      case Opening =>
        assert k == 1 && after[0] == text[1] == c;
        assert allowed == (c == '#' || rules.IsNameStart(c));
      case AfterHash =>
        assert k == 2 && text[1] == '#';
        assert allowed == (c == 'x' || DecimalDigit(c));
      case Decimal => assert text[1] == '#' && text[2] != 'x' && after[1] == before[1];
      case AfterX =>
        assert k == 3 && text[1] == '#' && text[2] == 'x' && after[1] == before[1];
        assert allowed == HexDigit(c);
      case Hexadecimal => assert k > 3 && text[1] == '#' && text[2] == 'x' && after[1] == before[1];
      case InName => assert text[1] != '#' && k > 1;
    }
  }

  /** `scan_reference`: the offset of the closing `;`, reading only what is new. */
  method ScanReference(scan: Scan, rules: NameRules, text: string, limit: nat) returns (result: ScanResult)
    requires text != "" && text[0] == '&'
    requires Saved(scan.checked, ReferenceStep(rules, limit), Opening, text)
    modifies scan`checked
    ensures result == ReferenceScan(rules, text, limit)
    ensures Saved(scan.checked, ReferenceStep(rules, limit), Opening, text)
  {
    hide Encode, Utf8, Width, Len, IsBoundary, Phase, Run, Saved, ReferenceStep, DecimalDigit, HexDigit;
    hide NameRules.IsNameStart, NameRules.IsNameChar;
    ghost var step := ReferenceStep(rules, limit);
    var numeric := |text| >= 2 && text[1] == '#';
    var hexadecimal := numeric && |text| >= 3 && text[2] == 'x';
    var digitsStart := if hexadecimal then 3 else 2;
    var start := if scan.checked > 1 then scan.checked else 1;
    ghost var resumed := SavedRun(scan.checked, step, Opening, text);
    PhaseAt(rules, limit, text[1..resumed]);
    CharIndexAt(text, resumed);
    var k, index := CharIndex(text, start), start;
    ghost var whole := ReferenceRun(rules, text, limit);
    while k < |text|
      invariant 1 <= k <= |text| && index == Len(text[..k]) && scan.checked == old(scan.checked)
      invariant Run(step, CharWidth(), text[1..k], 1, Opening) == Ended(index, Phase(text[1..k]))
      invariant whole == Run(step, CharWidth(), text[k..], index, Phase(text[1..k]))
    {
      var character := text[k];
      OffsetStep(text, k);
      Iteration(step, text, k, Opening, index, Phase(text[1..k]));
      if index < limit { ReferenceMove(rules, limit, text, k); }
      if index >= limit {
        Unbounded(rules, ' ', limit);
        return Fail(LimitExceeded, 0);
      }
      if character == ';' {
        if index == 1 || (numeric && index == digitsStart) {
          return Fail(InvalidToken, index);
        }
        return End(index);
      }
      var valid :=
        if index == 1 then numeric || rules.IsNameStart(character)
        else if numeric then
          (index == 2 && character == 'x') || (if hexadecimal then HexDigit(character) else DecimalDigit(character))
        else rules.IsNameChar(character);
      if !valid {
        return Fail(InvalidToken, index);
      }
      k, index := k + 1, index + Width(character);
    }
    assert text[..k] == text && text[k..] == "" && text[1..k] == text[1..];
    RunNothing(step, CharWidth(), index, Phase(text[1..]));
    SavedHere(step, text, Opening);
    scan.checked := Len(text);
    result := if Len(text) > limit then Fail(LimitExceeded, 0) else Incomplete;
  }

  lemma OneUnit(u: ())
    ensures u == ()
  {
    match u case () =>
  }

  /** `scan_prolog_literal`: the offset after the closing quote. A found quote stays saved, so a
      caller that waits for the delimiter after it finds it again at once. */
  method ScanPrologLiteral(scan: Scan, text: string, limit: nat) returns (result: ScanResult)
    requires text != "" && IsAscii(text[0])
    requires Saved(scan.checked, LiteralStep(text[0], limit), (), text)
    modifies scan`checked
    ensures result == Literal(text, limit)
    ensures result.End? ==> scan.checked + 1 == result.at
    ensures Saved(scan.checked, LiteralStep(text[0], limit), (), text)
  {
    hide Encode, Utf8, Width, Len, IsBoundary, Run, IsXmlChar;
    ghost var step := LiteralStep(text[0], limit);
    var quote := text[0];
    var start := if scan.checked > 1 then scan.checked else 1;
    ghost var resumed := SavedRun(scan.checked, step, (), text);
    CharIndexAt(text, resumed);
    var k, index := CharIndex(text, start), start;
    OneUnit(Run(step, CharWidth(), text[1..k], 1, ()).state);
    while k < |text|
      invariant 1 <= k <= |text| && index == Len(text[..k]) && scan.checked == old(scan.checked)
      invariant Run(step, CharWidth(), text[1..k], 1, ()) == Ended(index, ())
      invariant LiteralRun(text, limit) == Run(step, CharWidth(), text[k..], index, ())
    {
      var character := text[k];
      OffsetStep(text, k);
      Iteration(step, text, k, (), index, ());
      if index >= limit {
        return Fail(LimitExceeded, 0);
      }
      if !IsXmlChar(character) {
        return Fail(InvalidToken, index);
      }
      if character == quote {
        scan.checked := index;
        return End(index + 1);
      }
      k, index := k + 1, index + Width(character);
    }
    assert text[..k] == text && text[k..] == "" && text[1..k] == text[1..];
    RunNothing(step, CharWidth(), index, ());
    SavedHere(step, text, ());
    scan.checked := Len(text);
    result := if Len(text) > limit then Fail(LimitExceeded, 0) else Incomplete;
  }

  // ------------------------------------------------------------- whole sessions

  lemma OpeningStays(feeds: seq<string>, i: nat)
    requires feeds != [] && feeds[0] != "" && 0 < i <= |feeds|
    ensures Join(feeds[..i]) != "" && Join(feeds[..i])[0] == feeds[0][0]
  {
    JoinFirst(feeds[..i]);
  }

  /** Scan after every feed until a report is made: it is the report on the whole text, for every limit. */
  method ReadReference(rules: NameRules, feeds: seq<string>, limit: nat) returns (result: ScanResult, seen: nat)
    requires feeds != [] && feeds[0] != "" && feeds[0][0] == '&'
    ensures 0 < seen <= |feeds| && (result == Incomplete ==> seen == |feeds|)
    ensures forall i: nat | 0 < i < seen ::
      Join(feeds[..i]) != "" && ReferenceScan(rules, Join(feeds[..i]), limit) == Incomplete
    ensures Join(feeds) != "" && result == ReferenceScan(rules, Join(feeds), limit)
  {
    hide ReferenceScan, Saved, ReferenceStep;
    var scan := new Scan();
    var text := feeds[0];
    OpeningStays(feeds, 1);
    NothingSaved(ReferenceStep(rules, limit), Opening, text);
    JoinFirst(feeds[..1]);
    result := ScanReference(scan, rules, text, limit);
    seen := 1;
    while seen < |feeds| && result == Incomplete
      invariant 0 < seen <= |feeds| && text == Join(feeds[..seen]) && text != "" && text[0] == '&' && fresh(scan)
      invariant result == ReferenceScan(rules, text, limit)
      invariant Saved(scan.checked, ReferenceStep(rules, limit), Opening, text)
      invariant forall i: nat | 0 < i < seen ::
        Join(feeds[..i]) != "" && ReferenceScan(rules, Join(feeds[..i]), limit) == Incomplete
      decreases |feeds| - seen
    {
      SavedGrows(scan.checked, ReferenceStep(rules, limit), Opening, text, feeds[seen]);
      JoinNext(feeds, seen);
      text := text + feeds[seen];
      result := ScanReference(scan, rules, text, limit);
      seen := seen + 1;
    }
    JoinSplit(feeds, seen);
    SplitsInvisible(rules, text, Join(feeds[seen..]), limit);
    assert result == Incomplete ==> feeds[seen..] == [] && text + "" == text;
  }

  /** Scan after every feed, also while a finished literal waits for the delimiter behind it: each
      report is the one on all the text so far, and the first is the one on the whole text. */
  method ReadPrologLiteral(feeds: seq<string>, limit: nat) returns (results: seq<ScanResult>)
    requires feeds != [] && feeds[0] != "" && IsAscii(feeds[0][0])
    ensures |results| == |feeds|
    ensures forall i: nat | 0 < i <= |feeds| ::
      Join(feeds[..i]) != "" && results[i - 1] == Literal(Join(feeds[..i]), limit)
    ensures forall i: nat | i < |feeds| && results[i] != Incomplete ::
      Join(feeds) != "" && results[i] == Literal(Join(feeds), limit)
  {
    hide Literal, Saved, LiteralStep, Join;
    JoinNothing(feeds);
    var scan := new Scan();
    var text := "";
    results := [];
    while |results| < |feeds|
      invariant |results| <= |feeds| && text == Join(feeds[..|results|]) && fresh(scan)
      invariant results == [] ==> scan.checked == 0
      invariant results != [] ==>
        text != "" && text[0] == feeds[0][0] && Saved(scan.checked, LiteralStep(feeds[0][0], limit), (), text)
      invariant forall i: nat | 0 < i <= |results| ::
        Join(feeds[..i]) != "" && results[i - 1] == Literal(Join(feeds[..i]), limit)
    {
      var i := |results|;
      var step := LiteralStep(feeds[0][0], limit);
      if i > 0 { SavedGrows(scan.checked, step, (), text, feeds[i]); }
      JoinNext(feeds, i);
      OpeningStays(feeds, i + 1);
      text := text + feeds[i];
      NothingSaved(step, (), text);
      assert Saved(scan.checked, step, (), text) && text[0] == feeds[0][0];
      var result := ScanPrologLiteral(scan, text, limit);
      results := results + [result];
    }
    forall i: nat | i < |feeds| && results[i] != Incomplete
      ensures Join(feeds) != "" && results[i] == Literal(Join(feeds), limit)
    {
      JoinSplit(feeds, i + 1);
      SplitsInvisible(FifthEdition, Join(feeds[..i + 1]), Join(feeds[i + 1..]), limit);
    }
  }

  lemma NothingSaved<S>(step: (S, char, nat) -> Move<S>, start: S, text: string)
    ensures Saved(0, step, start, text)
  {}

  // -------------------------------------------------------------------- decoding

  function DigitValue(c: char): (v: nat)
    ensures v < 16
  {
    if DecimalDigit(c) then c as int - '0' as int
    else if 'a' <= c <= 'f' then c as int - 'a' as int + 10
    else if 'A' <= c <= 'F' then c as int - 'A' as int + 10
    else 0
  }

  function Number(digits: string, radix: nat): nat {
    if digits == "" then 0 else Number(digits[..|digits| - 1], radix) * radix + DigitValue(digits[|digits| - 1])
  }

  predicate IsDigit(c: char, radix: nat) { if radix == 16 then HexDigit(c) else DecimalDigit(c) }

  /** `char::from_u32`, then the characters XML allows. */
  function Scalar(value: nat): (c: Option<char>)
    ensures c.Some? ==> c.value as int == value && IsXmlChar(c.value)
  {
    if value < 0xD800 || 0xE000 <= value < 0x11_0000 then
      var c := value as char;
      if IsXmlChar(c) then Some(c) else None
    else None
  }

  /** The length in bytes of the digits before the first wrong one, or none when all are digits. */
  function WrongDigit(digits: string, radix: nat): (at: Option<nat>)
    ensures at.None? <==> forall i: nat | i < |digits| :: IsDigit(digits[i], radix)
  {
    if digits == "" then None
    else if !IsDigit(digits[0], radix) then Some(0)
    else match WrongDigit(digits[1..], radix)
      case Some(at) => Some(at + 1)
      case None => assert forall i: nat | 1 <= i < |digits| :: digits[i] == digits[1..][i - 1]; None
  }

  function Predefined(name: string): Option<char> {
    if name == "lt" then Some('<')
    else if name == "gt" then Some('>')
    else if name == "amp" then Some('&')
    else if name == "apos" then Some('\'')
    else if name == "quot" then Some('"')
    else None
  }

  function Radix(name: string): nat { if |name| >= 2 && name[1] == 'x' then 16 else 10 }

  function Digits(name: string): string
    requires name != ""
  {
    if Radix(name) == 16 then name[2..] else name[1..]
  }

  /** `character_reference`: the text between `&` and `;`. None is a general entity reference. */
  function CharacterReference(name: string): Result<Option<char>, (ErrorKind, nat)> {
    if Predefined(name).Some? then Success(Predefined(name))
    else if name != "" && name[0] == '#' then
      var digits, radix := Digits(name), Radix(name);
      var wrong := WrongDigit(digits, radix);
      if digits == "" || wrong.Some? then
        Failure((InvalidToken, 1 + (|name| - |digits|) + if wrong.Some? then wrong.value else 0))
      else
        match Scalar(Number(digits, radix))
        case Some(c) => Success(Some(c))
        case None => Failure((BadCharacterReference, 0))
    else Success(None)
  }

  // ------------------------------------------------------------- bounded fast path

  datatype ScalarReference = ScalarReference(bytes: nat, character: char, predefined: bool)

  function Semicolon(s: string): (at: Option<nat>)
    ensures at.Some? ==> at.value < |s| && s[at.value] == ';' && forall i: nat | i < at.value :: s[i] != ';'
    ensures at.None? ==> forall i: nat | i < |s| :: s[i] != ';'
  {
    if s == "" then None
    else if s[0] == ';' then Some(0)
    else match Semicolon(s[1..])
      case Some(at) => assert forall i: nat | 1 <= i < at + 1 :: s[i] == s[1..][i - 1]; Some(at + 1)
      case None => None
  }

  /** A complete reference to a character within the limit; numeric ones end within 16 bytes. */
  function Complete(text: string, limit: nat): Option<ScalarReference> {
    match Semicolon(text)
    case None => None
    case Some(at) =>
      if at < 2 || at >= limit || (text[1] == '#' && at >= 16) then None
      else
        match CharacterReference(text[1..at])
        case Failure(_) => None
        case Success(None) => None
        case Success(Some(c)) => Some(ScalarReference(at + 1, c, text[1] != '#'))
  }

  /** A text that opens a numeric reference, its radix and the offset of its digits. */
  predicate Numeric(text: string, start: nat, radix: nat) {
    && |text| >= 2 && text[0] == '&' && text[1] == '#'
    && if |text| >= 3 && text[2] == 'x' then start == 3 && radix == 16 else start == 2 && radix == 10
  }

  predicate AllDigits(text: string, from: nat, until: nat, radix: nat) {
    until <= |text| && forall i: nat | from <= i < until :: IsDigit(text[i], radix)
  }

  lemma SemicolonAt(text: string, at: nat)
    requires at < |text| && text[at] == ';' && forall i: nat | i < at :: text[i] != ';'
    ensures Semicolon(text) == Some(at)
  {}

  /** The first `;` of a numeric reference follows every leading digit. */
  lemma SemicolonAfter(text: string, start: nat, index: nat, radix: nat)
    requires Numeric(text, start, radix) && AllDigits(text, start, index, radix)
    ensures Semicolon(text).Some? ==> Semicolon(text).value >= start && Semicolon(text).value >= index
  {}

  lemma NameDigits(text: string, start: nat, at: nat, radix: nat)
    requires Numeric(text, start, radix) && start <= at <= |text|
    ensures
      var name := text[1..at];
      name != "" && name[0] == '#' && Radix(name) == radix && Digits(name) == text[start..at]
    ensures
      CharacterReference(text[1..at]) ==
        var digits := text[start..at];
        var wrong := WrongDigit(digits, radix);
        if digits == "" || wrong.Some? then
          Failure((InvalidToken, start + if wrong.Some? then wrong.value else 0))
        else match Scalar(Number(digits, radix))
          case Some(c) => Success(Some(c))
          case None => Failure((BadCharacterReference, 0))
  {
    hide WrongDigit, Scalar, Number;
    var name := text[1..at];
    assert name[0] == text[1];
    if |name| >= 2 { assert name[1] == text[2]; }
    assert Predefined(name).None?;
  }

  lemma {:induction false} NumberGrows(a: string, b: string, radix: nat)
    requires radix >= 1
    ensures Number(a + b, radix) >= Number(a, radix)
  {
    if b == "" {
      assert a + b == a;
    } else {
      var n := |b| - 1;
      assert (a + b)[..|a + b| - 1] == a + b[..n];
      NumberGrows(a, b[..n], radix);
      Scaled(Number(a + b[..n], radix), radix);
    }
  }

  lemma Scaled(x: nat, radix: nat)
    requires radix >= 1
    ensures x * radix >= x
  {}

  lemma NoDigits(radix: nat)
    ensures Number("", radix) == 0
  {}

  lemma AppendDigit(digits: string, c: char, radix: nat)
    ensures Number(digits + [c], radix) == Number(digits, radix) * radix + DigitValue(c)
  {
    assert (digits + [c])[..|digits|] == digits;
  }

  lemma Terminated(text: string, start: nat, index: nat, radix: nat, limit: nat)
    requires Numeric(text, start, radix) && start <= index < |text| && AllDigits(text, start, index, radix)
    requires text[index] == ';' && index < limit && index < 16
    ensures Complete(text, limit) ==
      if index == start then None
      else match Scalar(Number(text[start..index], radix))
        case Some(c) => Some(ScalarReference(index + 1, c, false))
        case None => None
  {
    hide WrongDigit, Scalar, Number, CharacterReference;
    SemicolonAt(text, index);
    NameDigits(text, start, index, radix);
    assert forall i: nat | i < index - start :: text[start..index][i] == text[start + i];
  }

  lemma Misspelled(text: string, start: nat, index: nat, radix: nat, limit: nat)
    requires Numeric(text, start, radix) && start <= index < |text| && AllDigits(text, start, index, radix)
    requires !IsDigit(text[index], radix) && text[index] != ';'
    ensures Complete(text, limit) == None
  {
    hide WrongDigit, Scalar, Number, CharacterReference;
    SemicolonAfter(text, start, index, radix);
    var at := Semicolon(text);
    if at.Some? {
      NameDigits(text, start, at.value, radix);
      assert text[start..at.value][index - start] == text[index];
    }
  }

  lemma Overflows(text: string, start: nat, index: nat, radix: nat, limit: nat)
    requires Numeric(text, start, radix) && start <= index && AllDigits(text, start, index, radix)
    requires Number(text[start..index], radix) >= 0x1_0000_0000
    ensures Complete(text, limit) == None
  {
    hide WrongDigit, Number, CharacterReference;
    SemicolonAfter(text, start, index, radix);
    var at := Semicolon(text);
    if at.Some? {
      NameDigits(text, start, at.value, radix);
      assert text[start..at.value] == text[start..index] + text[index..at.value];
      NumberGrows(text[start..index], text[index..at.value], radix);
    }
  }

  lemma Unterminated(text: string, start: nat, index: nat, radix: nat, limit: nat)
    requires Numeric(text, start, radix) && start <= index && AllDigits(text, start, index, radix)
    requires index >= |text| || index >= limit || index >= 16
    ensures Complete(text, limit) == None
  {
    hide CharacterReference;
    SemicolonAfter(text, start, index, radix);
  }

  lemma PredefinedSpelling(text: string, name: string, limit: nat)
    requires Predefined(name).Some? && Starts(text, "&" + name + ";")
    ensures Complete(text, limit)
         == if |name| + 2 <= limit then Some(ScalarReference(|name| + 2, Predefined(name).value, true)) else None
  {
    var spelled, n := "&" + name + ";", |name| + 1;
    assert text[..|spelled|] == spelled;
    assert text[n] == spelled[n] == ';' && text[1] == spelled[1];
    assert text[1..n] == spelled[1..n] == name;
    forall i: nat | i < n ensures text[i] != ';' {
      assert text[i] == spelled[i];
    }
    SemicolonAt(text, n);
  }

  lemma NotPredefined(text: string, limit: nat)
    requires |text| >= 2 && text[0] == '&' && text[1] != '#'
    requires !Starts(text, "&amp;") && !Starts(text, "&apos;") && !Starts(text, "&lt;")
    requires !Starts(text, "&gt;") && !Starts(text, "&quot;")
    ensures Complete(text, limit) == None
  {
    hide Starts, Predefined;
    var at := Semicolon(text);
    if at.Some? && at.value >= 2 {
      var name := text[1..at.value];
      assert name[0] == text[1];
      Spelled(text, at.value);
      if Predefined(name).Some? { PredefinedNames(name); }
    }
  }

  lemma Spelled(text: string, at: nat)
    requires 1 <= at < |text| && text[0] == '&' && text[at] == ';'
    ensures Starts(text, "&" + text[1..at] + ";")
  {
    assert text[..at + 1] == "&" + text[1..at] + ";";
  }

  lemma PredefinedNames(name: string)
    requires Predefined(name).Some?
    ensures "&" + name + ";" == "&amp;" || "&" + name + ";" == "&apos;" || "&" + name + ";" == "&lt;"
         || "&" + name + ";" == "&gt;" || "&" + name + ";" == "&quot;"
  {}

  /** `ScalarReference::scan`: decode common spellings once, or leave them to the general scanner. */
  method ScanScalar(text: string, limit: nat) returns (found: Option<ScalarReference>)
    requires text != "" && text[0] == '&'
    ensures found == Complete(text, limit)
  {
    hide CharacterReference, Number;
    if |text| < 2 {
      return None;
    }
    var spelling, character := 0, ' ';
    ghost var name := "";
    if Starts(text, "&amp;") { spelling, character, name := 5, '&', "amp"; }
    else if Starts(text, "&apos;") { spelling, character, name := 6, '\'', "apos"; }
    else if Starts(text, "&lt;") { spelling, character, name := 4, '<', "lt"; }
    else if Starts(text, "&gt;") { spelling, character, name := 4, '>', "gt"; }
    else if Starts(text, "&quot;") { spelling, character, name := 6, '"', "quot"; }
    else if text[1] == '#' {
      found := ScanNumeric(text, limit);
      return;
    } else {
      NotPredefined(text, limit);
      return None;
    }
    assert "&" + name + ";" <= text;
    PredefinedSpelling(text, name, limit);
    found := if spelling <= limit then Some(ScalarReference(spelling, character, true)) else None;
  }

  lemma SliceNext(s: string, i: nat, j: nat)
    requires i <= j < |s|
    ensures s[i..j] + [s[j]] == s[i..j + 1]
  {}

  method ScanNumeric(text: string, limit: nat) returns (found: Option<ScalarReference>)
    requires |text| >= 2 && text[0] == '&' && text[1] == '#'
    ensures found == Complete(text, limit)
  {
    hide CharacterReference, Number, Semicolon;
    var hexadecimal := |text| >= 3 && text[2] == 'x';
    var start := if hexadecimal then 3 else 2;
    var radix := if hexadecimal then 16 else 10;
    var value := 0;
    var index := start;
    var end := Min(|text|, Min(limit, 16));
    NoDigits(radix);
    assert text[start..start] == "";
    while index < end
      invariant start <= index <= |text|
      invariant AllDigits(text, start, index, radix)
      invariant value == Number(text[start..index], radix) < 0x1_0000_0000
    {
      var byte := text[index];
      if byte == ';' {
        Terminated(text, start, index, radix, limit);
        if index <= start {
          return None;
        }
        found := match Scalar(value)
          case Some(c) => Some(ScalarReference(index + 1, c, false))
          case None => None;
        return;
      }
      if !IsDigit(byte, radix) {
        Misspelled(text, start, index, radix, limit);
        return None;
      }
      AppendDigit(text[start..index], byte, radix);
      SliceNext(text, start, index);
      value := value * radix + DigitValue(byte);
      index := index + 1;
      if value >= 0x1_0000_0000 {
        Overflows(text, start, index, radix, limit);
        return None;
      }
    }
    Unterminated(text, start, index, radix, limit);
    return None;
  }

  // ------------------------------------- the fast path agrees with the resumable scan

  ghost predicate Reached(rules: NameRules, text: string, limit: nat, k: nat) {
    && 1 <= k <= |text|
    && Run(ReferenceStep(rules, limit), CharWidth(), text[1..k], 1, Opening) == Ended(Len(text[..k]), Phase(text[1..k]))
    && ReferenceRun(rules, text, limit)
         == Run(ReferenceStep(rules, limit), CharWidth(), text[k..], Len(text[..k]), Phase(text[1..k]))
  }

  lemma ReachedFirst(rules: NameRules, text: string, limit: nat)
    requires text != "" && text[0] == '&'
    ensures Reached(rules, text, limit, 1)
  {
    hide Run, Len;
    assert text[..1] == "&" && text[1..1] == "";
    AsciiLen("&");
    RunNothing(ReferenceStep(rules, limit), CharWidth(), 1, Opening);
  }

  /** From a reached offset, the next character is accepted, ends the reference, or is refused. */
  lemma ReachedNext(rules: NameRules, text: string, limit: nat, k: nat)
    requires text != "" && text[0] == '&' && k < |text| && Reached(rules, text, limit, k)
    ensures
      var index, run := Len(text[..k]), ReferenceRun(rules, text, limit);
      if index >= limit then run == Stopped(Fail(LimitExceeded, 0))
      else if !FlagsAllow(rules, text, index, text[k]) then run == Stopped(Fail(InvalidToken, index))
      else if text[k] == ';' then run == Stopped(End(index))
      else Reached(rules, text, limit, k + 1)
  {
    hide ReferenceStep, FlagsAllow, Width;
    var step := ReferenceStep(rules, limit);
    Iteration(step, text, k, Opening, Len(text[..k]), Phase(text[1..k]));
    OffsetStep(text, k);
    Unbounded(rules, ' ', limit);
    if Len(text[..k]) < limit { ReferenceMove(rules, limit, text, k); }
  }

  /** A reference ends at its first `;`. */
  lemma {:induction false} EndsAtSemicolon(rules: NameRules, text: string, limit: nat, k: nat)
    requires text != "" && text[0] == '&' && Reached(rules, text, limit, k)
    requires forall i: nat | i < k :: text[i] != ';'
    ensures
      var result := ReferenceScan(rules, text, limit);
      result.End? ==> Semicolon(text).Some? && result.at == Len(text[..Semicolon(text).value]) < limit
    decreases |text| - k
  {
    hide FlagsAllow, ReferenceStep;
    if k < |text| {
      ReachedNext(rules, text, limit, k);
      if text[k] == ';' {
        SemicolonAt(text, k);
      } else if Reached(rules, text, limit, k + 1) {
        EndsAtSemicolon(rules, text, limit, k + 1);
      }
    } else {
      assert text[k..] == "";
    }
  }

  /** A text of accepted ASCII characters up to `;` is a whole reference. */
  lemma {:induction false} EndsHere(rules: NameRules, text: string, limit: nat, k: nat, n: nat)
    requires text != "" && text[0] == '&' && 1 <= k <= n < |text| && n < limit && Reached(rules, text, limit, k)
    requires forall i: nat | i <= n :: IsAscii(text[i]) && (i < n ==> text[i] != ';')
    requires forall i: nat | 1 <= i <= n :: FlagsAllow(rules, text, i, text[i])
    requires text[n] == ';'
    ensures ReferenceScan(rules, text, limit) == End(n)
    decreases n - k
  {
    hide FlagsAllow, ReferenceStep;
    AsciiLen(text[..k]);
    ReachedNext(rules, text, limit, k);
    if k < n { EndsHere(rules, text, limit, k + 1, n); }
  }

  lemma PlainLetters(rules: NameRules, text: string, n: nat)
    requires 2 <= n < |text| && text[0] == '&' && text[n] == ';' && Predefined(text[1..n]).Some?
    ensures forall i: nat | i <= n :: IsAscii(text[i]) && (i < n ==> text[i] != ';')
    ensures forall i: nat | 1 <= i <= n :: FlagsAllow(rules, text, i, text[i])
  {
    var name := text[1..n];
    assert forall i: nat | 1 <= i < n :: text[i] == name[i - 1];
    assert forall i: nat | i < |name| :: 'a' <= name[i] <= 'z';
  }

  lemma PlainDigits(rules: NameRules, text: string, start: nat, n: nat, radix: nat)
    requires Numeric(text, start, radix) && start < n < |text| && text[n] == ';'
    requires WrongDigit(text[start..n], radix).None?
    ensures forall i: nat | i <= n :: IsAscii(text[i]) && (i < n ==> text[i] != ';')
    ensures forall i: nat | 1 <= i <= n :: FlagsAllow(rules, text, i, text[i])
  {
    var digits := text[start..n];
    assert forall i: nat | start <= i < n :: text[i] == digits[i - start];
  }

  /** The fast path and the resumable scan agree on length and character; each long enough
      general, wrong or numeric reference is left to the scan, and nothing else is. */
  lemma FastAgrees(rules: NameRules, text: string, limit: nat)
    requires text != "" && text[0] == '&'
    ensures
      match Complete(text, limit)
      case Some(r) =>
        && ReferenceScan(rules, text, limit) == End(r.bytes - 1) && r.bytes <= |text|
        && CharacterReference(text[1..r.bytes - 1]) == Success(Some(r.character))
        && r.predefined == (text[1] != '#')
      case None =>
        ReferenceScan(rules, text, limit).End? ==>
          && Semicolon(text).Some?
          && var at := Semicolon(text).value;
             && at >= 1
             && ((text[1] == '#' && at >= 16) || forall c :: CharacterReference(text[1..at]) != Success(Some(c)))
  {
    hide FlagsAllow, ReferenceStep, Number, Scalar;
    ReachedFirst(rules, text, limit);
    EndsAtSemicolon(rules, text, limit, 1);
    var at := Semicolon(text);
    if at.Some? {
      OffsetsIncrease(text, 0, at.value);
      var r := Complete(text, limit);
      if r.Some? {
        if text[1] == '#' {
          var hexadecimal := |text| >= 3 && text[2] == 'x';
          var start, radix := if hexadecimal then 3 else 2, if hexadecimal then 16 else 10;
          NameDigits(text, start, at.value, radix);
          PlainDigits(rules, text, start, at.value, radix);
        } else {
          assert text[1..at.value][0] == text[1];
          PlainLetters(rules, text, at.value);
        }
        EndsHere(rules, text, limit, 1, at.value);
      }
    }
  }
}
