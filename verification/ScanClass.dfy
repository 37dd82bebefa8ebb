/** Saved scan progress: every feed continues where the last one stopped (encoding.rs). */
module ScanClass {
  import opened Unicode
  import opened Wrappers
  import opened Chunks
  import opened Errors
  import opened Names
  import opened Scanners
  import opened MarkupScan

  /** Which scan a mode selects for the text at hand. */
  datatype Kind = EndTagKind | ElementKind | LoopKind | DelimitedKind(pattern: seq<Byte>, from: nat)

  function KindOf(mode: Mode, text: string): Kind {
    match mode
    case CommentMode => DelimitedKind(COMMENT_END, 4)
    case PiMode => DelimitedKind(PI_END, 2)
    case TagMode =>
      if |text| >= 2 && text[0] == '<' && text[1] == '/' then EndTagKind
      else if |text| >= 1 && text[0] == '<' && !(|text| >= 2 && text[1] == '!') then ElementKind
      else LoopKind
    case DoctypeMode => LoopKind
    case DtdMode => LoopKind
  }

  /** `scan_token_bytes` without memory: the report on all the text so far. */
  function Token(mode: Mode, rules: NameRules, text: string, limit: nat): ScanResult {
    match KindOf(mode, text)
    case EndTagKind => EndTag(rules, text, limit)
    case ElementKind => NonEmpty(text); ElementTag(Utf8(text), limit)
    case DelimitedKind(pattern, from) => Delimited(Utf8(text), pattern, from, limit)
    case LoopKind => LoopScan(mode, Utf8(text), limit)
  }

  /** `scan_token`: a limit is reported at the start of the character that holds it. */
  function Floored(text: string, result: ScanResult): ScanResult {
    if result.Fail? && result.kind == LimitExceeded then result.(at := Len(text[..FloorBoundary(text, result.at)]))
    else result
  }

  function FlooredToken(mode: Mode, rules: NameRules, text: string, limit: nat): ScanResult {
    Floored(text, Token(mode, rules, text, limit))
  }

  lemma NonEmpty(text: string)
    ensures text != "" ==> Utf8(text) != []
  {}

  // ------------------------------------------------------------------- end tags

  /** The byte before a boundary is blank exactly when the character is. */
  lemma BlankBefore(text: string, k: nat)
    requires 0 < k <= |text|
    ensures 0 < Len(text[..k]) <= |Utf8(text)|
    ensures WhitespaceByte(Utf8(text)[Len(text[..k]) - 1]) <==> Whitespace(text[k - 1])
  {
    hide Encode, Width;
    var c := text[k - 1];
    OffsetStep(text, k - 1);
    LenSplit(text, k);
    assert text == (text[..k - 1] + [c]) + text[k..];
    Utf8Concat(text[..k - 1] + [c], text[k..]);
    Utf8Concat(text[..k - 1], [c]);
    assert Utf8([c]) == Encode(c) + Utf8("");
    LastByteBlank(c);
  }

  lemma LastByteBlank(c: char)
    ensures WhitespaceByte(Encode(c)[Width(c) - 1]) <==> Whitespace(c)
  {}

  /** Whether whitespace was seen is visible in the last character: nothing else may follow it. */
  lemma {:induction false} EndTagState(rules: NameRules, limit: nat, s: string)
    requires Run(EndTagStep(rules, limit), CharWidth(), s, 2, false).Ended?
    ensures Run(EndTagStep(rules, limit), CharWidth(), s, 2, false).state == (s != "" && Whitespace(s[|s| - 1]))
  {
    if s != "" {
      var n := |s| - 1;
      var step := EndTagStep(rules, limit);
      assert s == s[..n] + [s[n]];
      RunConcat(step, CharWidth(), s[..n], [s[n]], 2, false);
      EndTagState(rules, limit, s[..n]);
      var before := Run(step, CharWidth(), s[..n], 2, false);
      RunOne(step, CharWidth(), s[n], before.index, before.state);
    }
  }

  // -------------------------------------------------------------- element jumps

  /** `memchr2` and `memchr3` with `memchr`: the first byte that is not skipped. */
  function Jump(bytes: seq<Byte>, quote: Byte, from: nat, until: nat): (next: Option<nat>)
    requires from <= until <= |bytes|
    ensures next.Some? ==> from <= next.value < until && !Skipped(bytes[next.value], quote)
    ensures
      var stop := if next.Some? then next.value else until;
      forall i: nat | from <= i < stop :: Skipped(bytes[i], quote)
    decreases until - from
  {
    if from == until then None
    else if !Skipped(bytes[from], quote) then Some(from)
    else Jump(bytes, quote, from + 1, until)
  }

  predicate Skipped(b: Byte, quote: Byte) {
    b != LT && if quote != 0 then b != quote else b != GT && b != APOS && b != QUOTE
  }

  /** Skipped bytes below the limit leave the state alone. */
  lemma {:induction false} SkippedRun(limit: nat, bytes: seq<Byte>, from: nat, until: nat, quote: Byte)
    requires from <= until <= |bytes| && until <= limit
    requires forall i: nat | from <= i < until :: Skipped(bytes[i], quote)
    ensures Run(ElementStep(limit), ByteWidth(), bytes[from..], from, quote)
         == Run(ElementStep(limit), ByteWidth(), bytes[until..], until, quote)
    decreases until - from
  {
    if from < until {
      assert Skipped(bytes[from], quote);
      assert bytes[from..][1..] == bytes[from + 1..];
      SkippedRun(limit, bytes, from + 1, until, quote);
    }
  }

  /** The scan of the whole tag goes on from an index with a state. */
  ghost predicate Reached(bytes: seq<Byte>, limit: nat, index: nat, quote: Byte) {
    && 1 <= index <= |bytes| && limit > 0
    && ElementRun(bytes, limit) == Run(ElementStep(limit), ByteWidth(), bytes[index..], index, quote)
  }

  lemma ReachedFirst(bytes: seq<Byte>, limit: nat, checked: nat, quote: Byte)
    requires bytes != [] && limit > 0 && checked <= |bytes|
    requires checked > 0 ==> Run(ElementStep(limit), ByteWidth(), bytes[1..], 1, 0)
                             == Run(ElementStep(limit), ByteWidth(), bytes[checked..], checked, quote)
    requires checked == 0 ==> quote == 0
    ensures Reached(bytes, limit, if checked == 0 then 1 else checked, quote)
  {}

  /** What one byte does to the scan of the whole tag. */
  lemma ElementTurn(bytes: seq<Byte>, limit: nat, index: nat, quote: Byte)
    requires Reached(bytes, limit, index, quote) && index < |bytes|
    ensures
      match ElementStep(limit)(quote, bytes[index], index)
      case Stop(result) => ElementTag(bytes, limit) == result
      case Go(next) => Reached(bytes, limit, index + 1, next)
  {
    hide ElementStep;
    ElementUnfold(limit, bytes, index, quote);
  }

  lemma ReachedSkipping(bytes: seq<Byte>, limit: nat, from: nat, until: nat, quote: Byte)
    requires Reached(bytes, limit, from, quote) && from <= until <= |bytes| && until <= limit
    requires forall i: nat | from <= i < until :: Skipped(bytes[i], quote)
    ensures Reached(bytes, limit, until, quote)
  {
    hide ElementStep, Skipped;
    SkippedRun(limit, bytes, from, until, quote);
  }

  lemma ReachedLast(bytes: seq<Byte>, limit: nat, quote: Byte)
    requires Reached(bytes, limit, |bytes|, quote)
    ensures ElementRun(bytes, limit) == Ended(|bytes|, quote)
    ensures ElementTag(bytes, limit) == if |bytes| > limit then Fail(LimitExceeded, limit) else Incomplete
  {}

  lemma {:induction false} ElementUnfold(limit: nat, bytes: seq<Byte>, index: nat, quote: Byte)
    requires index < |bytes|
    ensures Run(ElementStep(limit), ByteWidth(), bytes[index..], index, quote)
         == match ElementStep(limit)(quote, bytes[index], index)
            case Stop(result) => Stopped(result)
            case Go(next) => Run(ElementStep(limit), ByteWidth(), bytes[index + 1..], index + 1, next)
  {
    assert bytes[index..][1..] == bytes[index + 1..];
  }

  // ---------------------------------------------------------------------- state

  /** How far an element tag can have been inspected. */
  function Reach(result: ScanResult, length: nat): nat {
    match result case End(at) => at case _ => length
  }

  class Scan {
    var mode: Option<Mode>
    var checked: nat
    var quote: Byte
    var brackets: nat
    var comment: bool
    var pi: bool
    /** Bytes looked at since the scan of the current token began. */
    ghost var inspected: nat

    constructor ()
      ensures mode == None && checked == 0
    {
      mode, checked, quote, brackets, comment, pi, inspected := None, 0, 0, 0, false, false, 0;
    }

    function LoopState(): State
      reads this
    {
      State(quote, brackets, comment, pi)
    }

    /** The progress an incomplete scan of `text` saved. */
    ghost predicate Remembers(m: Mode, rules: NameRules, text: string, limit: nat)
      reads this
    {
      && mode == Some(m) && Token(m, rules, text, limit) == Incomplete
      && match KindOf(m, text)
         case EndTagKind => checked == Len(text) && EndTagRun(rules, text, limit).Ended?
         case ElementKind =>
           NonEmpty(text);
           && ElementRun(Utf8(text), limit) == Ended(checked, quote) && limit > 0
           && brackets == 0 && !comment && !pi && inspected <= 2 * checked
         case DelimitedKind(pattern, _) =>
           checked == if |Utf8(text)| >= |pattern| - 1 then |Utf8(text)| - (|pattern| - 1) else 0
         case LoopKind =>
           && LoopRun(m, Utf8(text), limit, 0, START) == Paused(checked, LoopState())
           && (m == TagMode && text == "" ==> inspected == 0)
    }

    /** What resuming needs, for the text that is available now. */
    ghost predicate Ready(m: Mode, rules: NameRules, text: string, limit: nat)
      reads this
    {
      mode == Some(m) ==>
        match KindOf(m, text)
        case EndTagKind => checked <= 2 || ResumesEndTag(rules, text, limit)
        case ElementKind => ResumesElement(Utf8(text), limit)
        case DelimitedKind(pattern, from) =>
          forall i: nat | from <= i < checked :: !OccursAt(Utf8(text), pattern, i)
        case LoopKind =>
          && checked <= |Utf8(text)| && (m == TagMode && text == "" ==> inspected == 0)
          && LoopRun(m, Utf8(text), limit, 0, START) == LoopRun(m, Utf8(text), limit, checked, LoopState())
    }

    ghost predicate ResumesEndTag(rules: NameRules, text: string, limit: nat)
      reads this
    {
      exists k: nat | 2 < k <= |text| ::
        && checked == Len(text[..k])
        && Run(EndTagStep(rules, limit), CharWidth(), text[2..k], 2, false) == Ended(checked, Whitespace(text[k - 1]))
    }

    ghost predicate ResumesElement(bytes: seq<Byte>, limit: nat)
      reads this
    {
      && checked <= |bytes| && inspected <= 2 * checked && brackets == 0 && !comment && !pi
      && if checked == 0 then quote == 0
         else limit > 0 && Run(ElementStep(limit), ByteWidth(), bytes[1..], 1, 0)
                        == Run(ElementStep(limit), ByteWidth(), bytes[checked..], checked, quote)
    }

    /** `scan_token`: the report, with a limit moved to the start of the character that holds it. */
    method ScanToken(m: Mode, rules: NameRules, text: string, limit: nat) returns (result: ScanResult)
      requires Ready(m, rules, text, limit)
      modifies this
      ensures result == FlooredToken(m, rules, text, limit)
      ensures result == Incomplete ==> Remembers(m, rules, text, limit)
      ensures KindOf(m, text) == ElementKind ==> inspected <= 2 * Reach(result, Len(text))
    {
      hide Token, Ready, Remembers, KindOf;
      result := ScanTokenBytes(m, rules, text, limit);
      if result.Fail? && result.kind == LimitExceeded {
        result := result.(at := Len(text[..FloorBoundary(text, result.at)]));
      }
    }

    /** `scan_token_bytes`: the report on all the text, reading only what is new. */
    method ScanTokenBytes(m: Mode, rules: NameRules, text: string, limit: nat) returns (result: ScanResult)
      requires Ready(m, rules, text, limit)
      modifies this
      ensures result == Token(m, rules, text, limit)
      ensures result == Incomplete ==> Remembers(m, rules, text, limit)
      ensures KindOf(m, text) == ElementKind ==> inspected <= 2 * Reach(result, Len(text))
    {
      if mode != Some(m) {
        mode, checked, quote, brackets, comment, pi, inspected := Some(m), 0, 0, 0, false, false, 0;
      }
      match KindOf(m, text)
      case EndTagKind => result := ScanEndTag(m, rules, text, limit);
      case ElementKind => NonEmpty(text); result := ScanElement(Utf8(text), limit);
      case DelimitedKind(pattern, from) => result := ScanDelimited(Utf8(text), pattern, from, limit);
      case LoopKind => result := ScanLoop(m, Utf8(text), limit);
    }

    method ScanEndTag(m: Mode, rules: NameRules, text: string, limit: nat) returns (result: ScanResult)
      requires mode == Some(m) && KindOf(m, text) == EndTagKind
      requires checked <= 2 || ResumesEndTag(rules, text, limit)
      modifies this`checked
      ensures result == EndTag(rules, text, limit)
      ensures result == Incomplete ==> checked == Len(text) && EndTagRun(rules, text, limit).Ended?
    {
      hide Encode, Utf8, Width, Len, IsBoundary, NameRules.IsNameChar;
      var start := if checked > 2 then checked else 2;
      ghost var resumed := Resumed(rules, text, limit, start);
      CharIndexAt(text, resumed);
      var k := CharIndex(text, start);
      var afterName := start > 2 && WhitespaceByte(Utf8(text)[start - 1]);
      ghost var step := EndTagStep(rules, limit);
      ghost var whole := EndTagRun(rules, text, limit);
      var index := start;
      while k < |text|
        invariant 2 <= k <= |text| && index == Len(text[..k])
        invariant whole == Run(step, CharWidth(), text[k..], index, afterName)
      {
        var character := text[k];
        assert text[k..][1..] == text[k + 1..];
        OffsetStep(text, k);
        if index + Width(character) > limit {
          return Fail(LimitExceeded, index);
        }
        if character == '>' {
          return End(index + 1);
        }
        if Whitespace(character) {
          afterName := true;
        } else if afterName || !rules.IsNameChar(character) {
          return Fail(InvalidToken, index);
        }
        k, index := k + 1, index + Width(character);
      }
      assert text[..k] == text && text[k..] == "";
      checked := Len(text);
      result := if Len(text) > limit then Fail(LimitExceeded, limit) else Incomplete;
    }

    /** The character index where an end tag resumes, and the state the previous byte shows. */
    lemma Resumed(rules: NameRules, text: string, limit: nat, start: nat) returns (k: nat)
      requires KindOf(TagMode, text) == EndTagKind && start == (if checked > 2 then checked else 2)
      requires checked <= 2 || ResumesEndTag(rules, text, limit)
      ensures 2 <= k <= |text| && start == Len(text[..k]) && start <= |Utf8(text)|
      ensures EndTagRun(rules, text, limit) == Run(EndTagStep(rules, limit), CharWidth(), text[k..], start,
                                                  start > 2 && WhitespaceByte(Utf8(text)[start - 1]))
    {
      hide EndTagStep, Run, Len, Utf8, WhitespaceByte;
      var step := EndTagStep(rules, limit);
      if checked <= 2 {
        k := 2;
        Opener(text);
      } else {
        k :| 2 < k <= |text| && checked == Len(text[..k])
          && Run(step, CharWidth(), text[2..k], 2, false) == Ended(checked, Whitespace(text[k - 1]));
        BlankBefore(text, k);
        assert text[2..] == text[2..k] + text[k..];
        RunConcat(step, CharWidth(), text[2..k], text[k..], 2, false);
      }
    }

    /** `scan_element_tag`: a fixed prefix byte by byte, then jumps to the next syntax byte. */
    method ScanElement(bytes: seq<Byte>, limit: nat) returns (result: ScanResult)
      requires bytes != [] && ResumesElement(bytes, limit)
      modifies this`checked, this`quote, this`inspected
      ensures result == ElementTag(bytes, limit)
      ensures result == Incomplete ==> checked == |bytes| && limit > 0 && ElementRun(bytes, limit) == Ended(checked, quote)
      ensures inspected <= 2 * Reach(result, |bytes|)
    {
      hide Run, ByteWidth, ElementRun, Reached;
      var index := checked;
      if index == 0 {
        if limit == 0 {
          return Fail(LimitExceeded, 0);
        }
        index := 1;
      }
      ReachedFirst(bytes, limit, checked, quote);
      result, index := ScanPrefix(bytes, limit, index);
      if result == Incomplete {
        result, index := ScanJumps(bytes, limit, index);
      }
      if result == Incomplete {
        ReachedLast(bytes, limit, quote);
        checked := index;
        result := if |bytes| > limit then Fail(LimitExceeded, limit) else Incomplete;
      }
    }

    /** A report ends the scan of a tag; otherwise it goes on from an index. */
    ghost predicate GoesOn(bytes: seq<Byte>, limit: nat, result: ScanResult, index: nat)
      reads this
    {
      if result == Incomplete then Reached(bytes, limit, index, quote) && inspected <= 2 * index
      else bytes != [] && result == ElementTag(bytes, limit) && inspected <= 2 * Reach(result, |bytes|)
    }

    method ScanPrefix(bytes: seq<Byte>, limit: nat, start: nat) returns (result: ScanResult, index: nat)
      requires Reached(bytes, limit, start, quote) && inspected <= 2 * start
      modifies this`quote, this`inspected
      ensures GoesOn(bytes, limit, result, index)
    {
      hide Run, ByteWidth, ElementRun, ElementTag;
      result, index := Incomplete, start;
      while index < |bytes| && index < 64
        invariant Reached(bytes, limit, index, quote) && inspected <= 2 * index
      {
        ElementTurn(bytes, limit, index, quote);
        inspected := inspected + 1;
        var byte := bytes[index];
        if byte == LT {
          return Fail(InvalidToken, index), index;
        }
        if index >= limit {
          return Fail(LimitExceeded, limit), index;
        }
        if quote != 0 {
          if byte == quote {
            quote := 0;
          }
        } else if byte == GT {
          return End(index + 1), index;
        } else if byte == APOS || byte == QUOTE {
          quote := byte;
        }
        index := index + 1;
      }
    }

    method ScanJumps(bytes: seq<Byte>, limit: nat, start: nat) returns (result: ScanResult, index: nat)
      requires Reached(bytes, limit, start, quote) && inspected <= 2 * start
      modifies this`quote, this`inspected
      ensures GoesOn(bytes, limit, result, index) && (result == Incomplete ==> index == |bytes|)
    {
      hide Run, ByteWidth, ElementRun, ElementTag, Jump;
      result, index := Incomplete, start;
      while index < |bytes|
        invariant Reached(bytes, limit, index, quote) && inspected <= 2 * index
        decreases |bytes| - index
      {
        ElementTurn(bytes, limit, index, quote);
        if bytes[index] == LT {
          return Fail(InvalidToken, index), index;
        }
        if index >= limit {
          return Fail(LimitExceeded, limit), index;
        }
        var end := if |bytes| < limit + 1 then |bytes| else limit + 1;
        var next := Jump(bytes, quote, index, end);
        inspected := inspected + 2 * (if next.Some? then next.value + 1 - index else end - index);
        if next.None? {
          ReachedSkipping(bytes, limit, index, if end <= limit then end else limit, quote);
          if end > limit {
            ElementTurn(bytes, limit, limit, quote);
            return Fail(LimitExceeded, limit), limit;
          }
          return Incomplete, end;
        }
        ReachedSkipping(bytes, limit, index, next.value, quote);
        index := next.value;
        ElementTurn(bytes, limit, index, quote);
        if bytes[index] == LT {
          return Fail(InvalidToken, index), index;
        }
        if index >= limit {
          return Fail(LimitExceeded, limit), index;
        }
        if quote != 0 {
          quote := 0;
        } else if bytes[index] == GT {
          return End(index + 1), index;
        } else {
          quote := bytes[index];
        }
        index := index + 1;
      }
    }

    /** Comments and instructions: search for the terminator from the saved progress. */
    method ScanDelimited(bytes: seq<Byte>, pattern: seq<Byte>, from: nat, limit: nat) returns (result: ScanResult)
      requires pattern == COMMENT_END || pattern == PI_END
      requires forall i: nat | from <= i < checked :: !OccursAt(bytes, pattern, i)
      modifies this`checked
      ensures result == Delimited(bytes, pattern, from, limit)
      ensures result == Incomplete ==> checked == if |bytes| >= |pattern| - 1 then |bytes| - (|pattern| - 1) else 0
    {
      var start := if checked > from then checked else from;
      var found := FindFrom(bytes, pattern, start);
      FindLater(bytes, pattern, from, start);
      if found.Some? {
        var end := found.value + |pattern|;
        return if end <= limit then End(end) else Fail(LimitExceeded, limit);
      }
      checked := if |bytes| >= |pattern| - 1 then |bytes| - (|pattern| - 1) else 0;
      result := if |bytes| > limit then Fail(LimitExceeded, limit) else Incomplete;
    }

    /** The generic loop over declarations. */
    method ScanLoop(m: Mode, bytes: seq<Byte>, limit: nat) returns (result: ScanResult)
      requires checked <= |bytes|
      requires LoopRun(m, bytes, limit, 0, START) == LoopRun(m, bytes, limit, checked, LoopState())
      modifies this`checked, this`quote, this`brackets, this`comment, this`pi
      ensures result == LoopScan(m, bytes, limit)
      ensures result == Incomplete ==> LoopRun(m, bytes, limit, 0, START) == Paused(checked, LoopState())
    {
      hide LoopRun, LoopStep, LoopScan;
      var index := checked;
      while index < |bytes|
        invariant index <= |bytes|
        invariant LoopRun(m, bytes, limit, 0, START) == LoopRun(m, bytes, limit, index, LoopState())
        decreases |bytes| - index
      {
        LoopTurn(m, bytes, limit, index, LoopState());
        var move := StepLoop(m, bytes, limit, index);
        if move.Halt? {
          return move.result;
        }
        if move.Wait? {
          break;
        }
        index := move.index;
      }
      LoopPauses(m, bytes, limit, index, LoopState());
      checked := index;
      result := if |bytes| > limit then Fail(LimitExceeded, limit) else Incomplete;
    }

    /** One turn of the loop. */
    method StepLoop(m: Mode, bytes: seq<Byte>, limit: nat, index: nat) returns (move: LoopMove)
      requires index < |bytes|
      modifies this`quote, this`brackets, this`comment, this`pi
      ensures move == LoopStep(m, bytes, limit, index, old(LoopState()))
      ensures LoopState() == if move.Advance? then move.state else old(LoopState())
    {
      hide OccursAt, WhitespaceByte;
      var byte, left, at := bytes[index], |bytes| - index, index + 1;
      if index >= limit {
        return Halt(Fail(LimitExceeded, limit));
      }
      if comment {
        if OccursAt(bytes, COMMENT_END, index) {
          comment, at := false, index + 3;
        } else if byte == DASH && left < 3 {
          return Wait;
        }
      } else if pi {
        if OccursAt(bytes, PI_END, index) {
          pi, at := false, index + 2;
        } else if byte == QUESTION && left < 2 {
          return Wait;
        }
      } else if quote != 0 {
        if byte == quote {
          quote := 0;
        }
      } else if m == DoctypeMode && byte == LT && index != 0 {
        if OccursAt(bytes, COMMENT_OPEN, index) {
          comment, at := true, index + 4;
        } else if OccursAt(bytes, PI_OPEN, index) {
          pi, at := true, index + 2;
        } else if left < 4 {
          return Wait;
        }
      } else if byte == APOS || byte == QUOTE {
        quote := byte;
      } else if byte == PERCENT && m == DtdMode {
        if index + 1 == |bytes| {
          return Wait;
        }
        if !WhitespaceByte(bytes[index + 1]) {
          return Halt(End(index + 1));
        }
      } else if byte == OPEN && m == DoctypeMode {
        return Halt(End(index + 1));
      } else if byte == CLOSE && m == DoctypeMode {
        brackets := if brackets == 0 then 0 else brackets - 1;
      } else if byte == GT && brackets == 0 {
        return Halt(End(index + 1));
      }
      return Advance(at, LoopState());
    }
  }

  // --------------------------------------------------------------------- growth

  /** Saved progress is what the next scan needs once more text arrived. */
  lemma MemoryGrows(scan: Scan, m: Mode, rules: NameRules, text: string, more: string, limit: nat)
    requires scan.Remembers(m, rules, text, limit)
    ensures scan.Ready(m, rules, text + more, limit)
  {
    hide EndTagStep, ElementStep, LoopStep, Run, LoopRun, Encode, Utf8;
    var whole := text + more;
    Utf8Concat(text, more);
    match KindOf(m, text)
    case EndTagKind => EndTagGrows(scan, rules, text, more, limit);
    case ElementKind => ElementGrows(scan, m, rules, text, more, limit);
    case DelimitedKind(pattern, from) =>
      forall i: nat | from <= i < scan.checked ensures !OccursAt(Utf8(whole), pattern, i) {
        assert FindFrom(Utf8(text), pattern, from).None?;
        OccursStable(Utf8(text), Utf8(more), pattern, i);
      }
    case LoopKind =>
      LoopResumes(m, Utf8(text), Utf8(more), limit, 0, START);
      if m == TagMode && text == "" { EmptyLoop(limit); }
  }

  lemma EmptyLoop(limit: nat)
    ensures Utf8("") == [] && LoopRun(TagMode, [], limit, 0, START) == Paused(0, START)
  {}

  lemma EndTagGrows(scan: Scan, rules: NameRules, text: string, more: string, limit: nat)
    requires KindOf(TagMode, text) == EndTagKind && EndTagRun(rules, text, limit).Ended? && scan.checked == Len(text)
    ensures scan.checked <= 2 || scan.ResumesEndTag(rules, text + more, limit)
  {
    hide EndTagStep;
    var whole, k := text + more, |text|;
    if k == 2 {
      assert text == "</";
    } else {
      var step := EndTagStep(rules, limit);
      assert whole[..k] == text && whole[2..k] == text[2..];
      RunChars(step, text[2..], 2, false);
      EndTagState(rules, limit, text[2..]);
      LenSplit(text, 2);
      assert text[..2] == "</" && Len("</") == 2;
      assert text[2..][|text[2..]| - 1] == whole[k - 1];
      assert Run(step, CharWidth(), whole[2..k], 2, false) == Ended(Len(text), Whitespace(whole[k - 1]));
    }
  }

  lemma ElementGrows(scan: Scan, m: Mode, rules: NameRules, text: string, more: string, limit: nat)
    requires scan.Remembers(m, rules, text, limit) && KindOf(m, text) == ElementKind
    ensures scan.Ready(m, rules, text + more, limit)
  {
    hide ElementStep, Utf8, Len, Run, LoopRun;
    var whole := text + more;
    Utf8Concat(text, more);
    NonEmpty(text);
    RunBytes(ElementStep(limit), Utf8(text)[1..], 1, 0);
    assert scan.checked == |Utf8(text)|;
    if KindOf(m, whole) == ElementKind {
      ElementResumes(Utf8(text), Utf8(more), limit, scan.quote);
    } else {
      LoneOpener();
      assert text == "<";
      RunNothing(ElementStep(limit), ByteWidth(), 1, 0);
      assert Utf8(text)[1..] == [] && Utf8(whole)[0] == LT;
      OpenerPasses(m, Utf8(whole), limit);
    }
  }

  lemma ElementResumes(a: seq<Byte>, more: seq<Byte>, limit: nat, quote: Byte)
    requires a != [] && ElementRun(a, limit) == Ended(|a|, quote)
    ensures Run(ElementStep(limit), ByteWidth(), (a + more)[1..], 1, 0)
         == Run(ElementStep(limit), ByteWidth(), (a + more)[|a|..], |a|, quote)
  {
    hide ElementStep;
    assert (a + more)[1..] == a[1..] + more && (a + more)[|a|..] == more;
    RunConcat(ElementStep(limit), ByteWidth(), a[1..], more, 1, 0);
  }

  /** The first `<` changes nothing for the loop. */
  lemma OpenerPasses(m: Mode, bytes: seq<Byte>, limit: nat)
    requires m == TagMode && bytes != [] && bytes[0] == LT && limit > 0
    ensures LoopRun(m, bytes, limit, 0, START) == LoopRun(m, bytes, limit, 1, START)
  {
    LoopUnfold(m, bytes, limit, 0, START);
  }

  lemma LoneOpener()
    ensures Utf8("<") == [LT]
  {
    assert Utf8("<") == Encode('<') + Utf8("");
  }

  // ------------------------------------------------------------------ splitting

  /** An end tag whose limit is smaller than `</` is refused before its first name character. */
  predicate CutBeforeName(m: Mode, text: string, more: string, limit: nat) {
    && m == TagMode && limit < |text| <= 2 && limit < 2
    && |text + more| > 2 && (text + more)[..2] == "</"
  }

  /** The cut happens: with a limit below two, an end tag is refused at the limit when only `</` is
      there yet, and behind `</` when any part of its name is. */
  lemma CutBeforeNameHappens(rules: NameRules, more: string, limit: nat)
    requires limit < 2 && more != ""
    ensures Token(TagMode, rules, "</", limit) == Fail(LimitExceeded, limit)
    ensures Token(TagMode, rules, "</" + more, limit) == Fail(LimitExceeded, 2)
    ensures CutBeforeName(TagMode, "</", more, limit)
  {
    hide Width;
    var whole := "</" + more;
    assert whole[2..] == more && whole[..2] == "</" && "</"[2..] == "";
    var step := EndTagStep(rules, limit);
    RunConcat(step, CharWidth(), "", more, 2, false);
    assert "" + more == more && step(false, more[0], 2) == Stop(Fail(LimitExceeded, 2));
    assert EndTagRun(rules, "</", limit) == Ended(2, false);
  }

  /** A report on a prefix is the report on the whole text unless the limit cuts one of two openers. */
  lemma TokenSplits(m: Mode, rules: NameRules, text: string, more: string, limit: nat)
    requires more != "" && Token(m, rules, text, limit) != Incomplete
    ensures Token(m, rules, text + more, limit) == Token(m, rules, text, limit)
       <==> !CutByLimit(m, Utf8(text), limit) && !CutBeforeName(m, text, more, limit)
  {
    hide EndTagStep, ElementStep, LoopStep, Run, LoopRun, Encode, Utf8;
    var whole := text + more;
    Utf8Concat(text, more);
    MoreBytes(more);
    match KindOf(m, text)
    case DelimitedKind(pattern, from) => DelimitedStable(Utf8(text), Utf8(more), pattern, from, limit);
    case EndTagKind => EndTagSplits(rules, text, more, limit);
    case ElementKind => ElementSplits(m, rules, text, more, limit);
    case LoopKind =>
      if m == TagMode && text == "" { EmptyLoop(limit); }
      SplitInvisible(m, Utf8(text), Utf8(more), limit);
  }

  lemma MoreBytes(more: string)
    ensures more != "" ==> Utf8(more) != []
  {}

  lemma EndTagSplits(rules: NameRules, text: string, more: string, limit: nat)
    requires KindOf(TagMode, text) == EndTagKind && more != "" && EndTag(rules, text, limit) != Incomplete
    ensures KindOf(TagMode, text + more) == EndTagKind
    ensures EndTag(rules, text + more, limit) == EndTag(rules, text, limit) <==> !CutBeforeName(TagMode, text, more, limit)
  {
    hide Width;
    var step := EndTagStep(rules, limit);
    var whole := text + more;
    assert whole[2..] == text[2..] + more;
    RunConcat(step, CharWidth(), text[2..], more, 2, false);
    EndTagWithin(rules, limit, text[2..]);
    if |text| == 2 {
      assert text[2..] == "" && whole[..2] == text == "</";
      assert EndTagRun(rules, text, limit) == Ended(2, false);
      if limit < 2 { assert step(false, more[0], 2) == Stop(Fail(LimitExceeded, 2)); }
    }
  }

  /** No character crosses the limit unnoticed. */
  lemma {:induction false} EndTagWithin(rules: NameRules, limit: nat, s: string)
    ensures
      var ran := Run(EndTagStep(rules, limit), CharWidth(), s, 2, false);
      ran.Ended? && s != "" ==> ran.index <= limit
  {
    hide Width;
    if s != "" {
      var n := |s| - 1;
      var step := EndTagStep(rules, limit);
      assert s == s[..n] + [s[n]];
      RunConcat(step, CharWidth(), s[..n], [s[n]], 2, false);
      var before := Run(step, CharWidth(), s[..n], 2, false);
      if before.Ended? { RunOne(step, CharWidth(), s[n], before.index, before.state); }
    }
  }

  lemma ElementSplits(m: Mode, rules: NameRules, text: string, more: string, limit: nat)
    requires m == TagMode && KindOf(m, text) == ElementKind && more != ""
    requires Token(m, rules, text, limit) != Incomplete
    ensures Token(m, rules, text + more, limit) == Token(m, rules, text, limit)
       <==> !CutBeforeName(m, text, more, limit)
  {
    hide Utf8, ElementTag, EndTag, LoopScan;
    var whole := text + more;
    Utf8Concat(text, more);
    NonEmpty(text);
    MoreBytes(more);
    if KindOf(m, whole) == ElementKind {
      ElementStable(Utf8(text), Utf8(more), limit);
    } else {
      LoneOpener();
      assert text == "<";
      RefusedOpener(limit);
      if KindOf(m, whole) == EndTagKind { RefusedEndTag(rules, whole); } else { RefusedLoop(Utf8(whole)); }
    }
  }

  lemma ElementStable(a: seq<Byte>, more: seq<Byte>, limit: nat)
    requires a != [] && ElementTag(a, limit) != Incomplete
    ensures ElementTag(a + more, limit) == ElementTag(a, limit)
  {
    hide ElementStep;
    ElementWithin(limit, a[1..]);
    RunBytes(ElementStep(limit), a[1..], 1, 0);
    RunConcat(ElementStep(limit), ByteWidth(), a[1..], more, 1, 0);
    assert (a + more)[1..] == a[1..] + more;
  }

  lemma RefusedOpener(limit: nat)
    ensures ElementTag([LT], limit) == if limit == 0 then Fail(LimitExceeded, 0) else Incomplete
  {
    assert [LT][1..] == [];
  }

  lemma RefusedLoop(bytes: seq<Byte>)
    requires bytes != []
    ensures LoopScan(TagMode, bytes, 0) == Fail(LimitExceeded, 0)
  {}

  lemma RefusedEndTag(rules: NameRules, whole: string)
    requires KindOf(TagMode, whole) == EndTagKind
    ensures EndTag(rules, whole, 0) == Fail(LimitExceeded, if |whole| > 2 then 2 else 0)
  {}

  /** Every byte of an element tag is checked against the limit. */
  lemma {:induction false} ElementWithin(limit: nat, s: seq<Byte>)
    ensures
      var ran := Run(ElementStep(limit), ByteWidth(), s, 1, 0);
      ran.Ended? && s != [] ==> ran.index <= limit
  {
    if s != [] {
      var n := |s| - 1;
      var step := ElementStep(limit);
      assert s == s[..n] + [s[n]];
      RunConcat(step, ByteWidth(), s[..n], [s[n]], 1, 0);
      var before := Run(step, ByteWidth(), s[..n], 1, 0);
      if before.Ended? { RunOne(step, ByteWidth(), s[n], before.index, before.state); }
    }
  }

  // --------------------------------------------------------- limits and characters

  /** A limit is reported within the text. */
  lemma LimitWithin(m: Mode, rules: NameRules, text: string, limit: nat)
    ensures
      var report := Token(m, rules, text, limit);
      report.Fail? && report.kind == LimitExceeded ==> report.at <= Len(text)
  {
    hide EndTagStep, ElementStep, LoopRun, Encode, Width, Len;
    match KindOf(m, text)
    case DelimitedKind(_, _) =>
    case LoopKind => LoopFails(m, Utf8(text), limit, 0, START);
    case ElementKind =>
      NonEmpty(text);
      ElementLimit(limit, Utf8(text)[1..], 1, 0);
      RunBytes(ElementStep(limit), Utf8(text)[1..], 1, 0);
    case EndTagKind =>
      Opener(text);
      EndTagLimit(rules, limit, text[2..], 2, false);
      RunChars(EndTagStep(rules, limit), text[2..], 2, false);
  }

  lemma Opener(text: string)
    requires KindOf(TagMode, text) == EndTagKind
    ensures text[..2] == "</" && Len(text[..2]) == 2 && Len(text) == 2 + Len(text[2..])
  {
    LenSplit(text, 2);
    assert text[..2] == "</" && Len("</") == 2;
  }

  lemma {:induction false} EndTagLimit(rules: NameRules, limit: nat, s: string, index: nat, state: bool)
    ensures
      var ran := Run(EndTagStep(rules, limit), CharWidth(), s, index, state);
      ran.Stopped? && ran.result.Fail? ==> ran.result.at <= index + Len(s)
  {
    hide Width;
    var step := EndTagStep(rules, limit);
    if s != "" && step(state, s[0], index).Go? {
      EndTagLimit(rules, limit, s[1..], index + Width(s[0]), step(state, s[0], index).next);
    }
  }

  lemma {:induction false} ElementLimit(limit: nat, s: seq<Byte>, index: nat, state: Byte)
    ensures
      var ran := Run(ElementStep(limit), ByteWidth(), s, index, state);
      ran.Stopped? && ran.result.Fail? ==> ran.result.at <= index + |s|
  {
    var step := ElementStep(limit);
    if s != [] && step(state, s[0], index).Go? {
      ElementLimit(limit, s[1..], index + 1, step(state, s[0], index).next);
    }
  }

  /** A reported limit is a character boundary, and the raw offset lies in the character behind it. */
  lemma FlooredCharacter(m: Mode, rules: NameRules, text: string, limit: nat)
    ensures
      var raw, report := Token(m, rules, text, limit), FlooredToken(m, rules, text, limit);
      raw.Fail? && raw.kind == LimitExceeded ==>
        && report == Fail(LimitExceeded, report.at) && IsBoundary(text, report.at) && report.at <= raw.at <= Len(text)
        && var k := CharIndex(text, report.at);
           k < |text| ==> raw.at < report.at + Width(text[k])
  {
    hide Token, Width, FloorBoundary;
    var raw := Token(m, rules, text, limit);
    if raw.Fail? && raw.kind == LimitExceeded {
      LimitWithin(m, rules, text, limit);
      FloorExact(text, raw.at);
      var k := FloorBoundary(text, raw.at);
      CharIndexAt(text, k);
      if k < |text| { OffsetStep(text, k); }
    }
  }

  /** The moved report is as independent of the split as the raw one. */
  lemma FlooredSplits(m: Mode, rules: NameRules, text: string, more: string, limit: nat)
    requires more != "" && FlooredToken(m, rules, text, limit) != Incomplete
    ensures FlooredToken(m, rules, text + more, limit) == FlooredToken(m, rules, text, limit)
       <==> !CutByLimit(m, Utf8(text), limit) && !CutBeforeName(m, text, more, limit)
  {
    hide Token, CutByLimit, FloorBoundary, Len;
    TokenSplits(m, rules, text, more, limit);
    LimitWithin(m, rules, text, limit);
    var raw := Token(m, rules, text, limit);
    if CutByLimit(m, Utf8(text), limit) {
      LoopCut(m, rules, text, more, limit);
    } else if CutBeforeName(m, text, more, limit) {
      NameCut(rules, text, more, limit);
      FloorExact(text, raw.at);
      assert (text + more)[..2] == "</";
      FloorAt(text + more, 2);
    } else if raw.Fail? && raw.kind == LimitExceeded {
      FloorStable(text, more, raw.at);
    }
  }

  /** A cut loop fails at the limit on the prefix, and does not fail on the whole text. */
  lemma LoopCut(m: Mode, rules: NameRules, text: string, more: string, limit: nat)
    requires more != "" && CutByLimit(m, Utf8(text), limit) && Token(m, rules, text, limit) != Incomplete
    requires Token(m, rules, text + more, limit) != Token(m, rules, text, limit)
    ensures Token(m, rules, text, limit) == Fail(LimitExceeded, limit) && !Token(m, rules, text + more, limit).Fail?
  {
    hide LoopRun, Utf8;
    LoopFails(m, Utf8(text), limit, 0, START);
    LoopFails(m, Utf8(text + more), limit, 0, START);
  }

  lemma NameCut(rules: NameRules, text: string, more: string, limit: nat)
    requires CutBeforeName(TagMode, text, more, limit)
    ensures Token(TagMode, rules, text, limit) == Fail(LimitExceeded, limit) && limit < 2
    ensures Token(TagMode, rules, text + more, limit) == Fail(LimitExceeded, 2)
    ensures Len((text + more)[..2]) == 2
  {
    hide Width, Encode;
    Opener(text + more);
    if |text| == 2 {
      assert text == "</";
      assert more != "" && text + more == "</" + more;
      CutBeforeNameHappens(rules, more, limit);
    } else {
      assert text == "<" && (text + more)[0] == '<';
      var rest := (text + more)[2..];
      assert text + more == "</" + rest;
      if limit == 0 { CutBeforeNameHappens(rules, rest, limit); }
    }
  }

  lemma FindLater(bytes: seq<Byte>, pattern: seq<Byte>, from: nat, start: nat)
    requires from <= start && forall i: nat | from <= i < start :: !OccursAt(bytes, pattern, i)
    ensures FindFrom(bytes, pattern, start) == FindFrom(bytes, pattern, from)
  {
    var a, b := FindFrom(bytes, pattern, start), FindFrom(bytes, pattern, from);
    if a.Some? { assert OccursAt(bytes, pattern, a.value); }
    if b.Some? { assert OccursAt(bytes, pattern, b.value); }
  }

  lemma {:induction false} LoopUnfold(m: Mode, bytes: seq<Byte>, limit: nat, index: nat, s: State)
    requires index < |bytes|
    ensures
      var ran := LoopRun(m, bytes, limit, index, s);
      match LoopStep(m, bytes, limit, index, s)
      case Wait => ran == Paused(index, s)
      case Halt(result) => ran == Decided(result)
      case Advance(at, next) => at <= |bytes| && ran == LoopRun(m, bytes, limit, at, next)
  {
    if LoopStep(m, bytes, limit, index, s).Advance? { AdvanceWithin(m, bytes, limit, index, s); }
  }

  /** The loop ends before its bytes only by waiting. */
  lemma LoopPauses(m: Mode, bytes: seq<Byte>, limit: nat, index: nat, s: State)
    requires index <= |bytes| && LoopRun(m, bytes, limit, 0, START) == LoopRun(m, bytes, limit, index, s)
    requires index < |bytes| ==> LoopStep(m, bytes, limit, index, s) == Wait
    ensures LoopRun(m, bytes, limit, 0, START) == Paused(index, s)
    ensures LoopScan(m, bytes, limit) == if |bytes| > limit then Fail(LimitExceeded, limit) else Incomplete
  {}

  /** What one turn of the loop does to the scan of the whole text. */
  lemma LoopTurn(m: Mode, bytes: seq<Byte>, limit: nat, index: nat, s: State)
    requires index < |bytes| && LoopRun(m, bytes, limit, 0, START) == LoopRun(m, bytes, limit, index, s)
    ensures
      match LoopStep(m, bytes, limit, index, s)
      case Wait => true
      case Halt(result) => result != Incomplete && LoopScan(m, bytes, limit) == result
      case Advance(at, next) =>
        index < at <= |bytes| && LoopRun(m, bytes, limit, 0, START) == LoopRun(m, bytes, limit, at, next)
  {
    hide LoopStep, LoopRun;
    LoopUnfold(m, bytes, limit, index, s);
    HaltsDecided(m, bytes, limit, index, s);
    if LoopStep(m, bytes, limit, index, s).Advance? { AdvanceWithin(m, bytes, limit, index, s); }
  }

  lemma HaltsDecided(m: Mode, bytes: seq<Byte>, limit: nat, index: nat, s: State)
    requires index < |bytes|
    ensures LoopStep(m, bytes, limit, index, s) != Halt(Incomplete)
  {
    hide OccursAt, WhitespaceByte;
  }

  // ------------------------------------------------------------- whole sessions

  /** The limit cuts one of the two openers at the boundary before feed `i`. */
  predicate CutAt(m: Mode, feeds: seq<string>, i: nat, limit: nat)
    requires i <= |feeds|
  {
    var text, more := Join(feeds[..i]), Join(feeds[i..]);
    more != "" && (CutByLimit(m, Utf8(text), limit) || CutBeforeName(m, text, more, limit))
  }

  /** Scan after every feed until a report is made: it is the report on the whole text, unless the
      limit cut an opener just there, and an element tag was read at most twice. */
  method ScanFeeds(m: Mode, rules: NameRules, feeds: seq<string>, limit: nat)
    returns (result: ScanResult, seen: nat, ghost inspected: nat)
    ensures seen <= |feeds| && (result == Incomplete ==> seen == |feeds|)
    ensures forall i: nat | 0 < i < seen :: FlooredToken(m, rules, Join(feeds[..i]), limit) == Incomplete
    ensures result == FlooredToken(m, rules, Join(feeds[..seen]), limit) || (feeds == [] && result == Incomplete)
    ensures feeds != [] ==> (result == FlooredToken(m, rules, Join(feeds), limit) <==> !CutAt(m, feeds, seen, limit))
    ensures KindOf(m, Join(feeds[..seen])) == ElementKind ==> inspected <= 2 * Reach(result, Len(Join(feeds[..seen])))
  {
    hide Token, Floored, CutByLimit, Len, KindOf, Scan.Remembers, Scan.Ready;
    var scan := new Scan();
    var text := "";
    seen, result, inspected := 0, Incomplete, 0;
    while seen < |feeds| && result == Incomplete
      invariant seen <= |feeds| && text == Join(feeds[..seen]) && fresh(scan)
      invariant seen == 0 ==> scan.mode == None && result == Incomplete && inspected == 0
      invariant seen > 0 ==> result == FlooredToken(m, rules, text, limit)
      invariant seen > 0 && result == Incomplete ==> scan.Remembers(m, rules, text, limit)
      invariant forall i: nat | 0 < i < seen :: FlooredToken(m, rules, Join(feeds[..i]), limit) == Incomplete
      invariant KindOf(m, text) == ElementKind ==> inspected <= 2 * Reach(result, Len(text))
      decreases |feeds| - seen
    {
      if seen > 0 { MemoryGrows(scan, m, rules, text, feeds[seen], limit); }
      if seen == 0 { ReadyAtFirst(scan, m, rules, text + feeds[0], limit); }
      JoinNext(feeds, seen);
      text := text + feeds[seen];
      result := scan.ScanToken(m, rules, text, limit);
      inspected := scan.inspected;
      seen := seen + 1;
    }
    if feeds != [] {
      var more := Join(feeds[seen..]);
      JoinSplit(feeds, seen);
      if more == "" { assert text + more == text; } else { FlooredSplits(m, rules, text, more, limit); }
    }
  }

  lemma ReadyAtFirst(scan: Scan, m: Mode, rules: NameRules, text: string, limit: nat)
    requires scan.mode == None
    ensures scan.Ready(m, rules, text, limit)
  {}
}
