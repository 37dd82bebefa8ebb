/** Where the scan of a declaration ends, said by the shape of its bytes alone (encoding.rs). */
module DeclarationShapes {
  import opened Unicode
  import opened Errors
  import opened Names
  import opened Scanners
  import opened MarkupScan
  import opened ScanClass
  import opened TokenShapes

  /** A piece of a declaration and how many bytes it has. */
  datatype Item = Single | Value(length: nat) | Remark(length: nat) | Instruction(length: nat)
  {
    function Length(): nat { if Single? then 1 else length }
  }

  predicate BlankAt(bytes: seq<Byte>, i: nat) {
    i < |bytes|
    && (bytes[i] == ' ' as int || bytes[i] == '\t' as int || bytes[i] == '\r' as int || bytes[i] == '\n' as int)
  }

  /** A byte that ends the scan: `>`, or where its caller has to look: an internal subset, a parameter
      reference. */
  predicate Terminates(mode: Mode, bytes: seq<Byte>, i: nat) {
    i < |bytes| &&
    (bytes[i] == '>' as int
     || (mode == DoctypeMode && bytes[i] == '[' as int)
     || (mode == DtdMode && bytes[i] == '%' as int && i + 1 < |bytes| && !BlankAt(bytes, i + 1)))
  }

  predicate RemarkOpens(bytes: seq<Byte>, i: nat) {
    && i + 4 <= |bytes| && bytes[i] == '<' as int && bytes[i + 1] == '!' as int
    && bytes[i + 2] == '-' as int && bytes[i + 3] == '-' as int
  }

  predicate InstructionOpens(bytes: seq<Byte>, i: nat) {
    i + 2 <= |bytes| && bytes[i] == '<' as int && bytes[i + 1] == '?' as int
  }

  /** A comment that opens at `i` is closed behind `e`. */
  predicate RemarkCloses(bytes: seq<Byte>, i: nat, e: nat) {
    && i + 7 <= e <= |bytes|
    && bytes[e - 3] == '-' as int && bytes[e - 2] == '-' as int && bytes[e - 1] == '>' as int
  }

  predicate InstructionCloses(bytes: seq<Byte>, i: nat, e: nat) {
    i + 4 <= e <= |bytes| && bytes[e - 2] == '?' as int && bytes[e - 1] == '>' as int
  }

  /** In a document type declaration a `<` may open a comment or an instruction, and only what follows
      it tells. */
  predicate Opens(mode: Mode, bytes: seq<Byte>, i: nat) {
    mode == DoctypeMode && 0 < i < |bytes| && bytes[i] == '<' as int
  }

  predicate ItemAt(mode: Mode, bytes: seq<Byte>, i: nat, item: Item) {
    match item
    case Single =>
      && i < |bytes| && !IsQuote(bytes[i]) && !Terminates(mode, bytes, i)
      && (mode == DtdMode && bytes[i] == '%' as int ==> i + 1 < |bytes|)
      && (Opens(mode, bytes, i) ==> i + 4 <= |bytes| && !RemarkOpens(bytes, i) && !InstructionOpens(bytes, i))
    case Value(n) =>
      && n >= 2 && i + n <= |bytes| && IsQuote(bytes[i]) && bytes[i + n - 1] == bytes[i]
      && forall j: nat | i < j < i + n - 1 :: bytes[j] != bytes[i]
    case Remark(n) =>
      && Opens(mode, bytes, i) && RemarkOpens(bytes, i) && RemarkCloses(bytes, i, i + n)
      && forall e: nat | e < i + n :: !RemarkCloses(bytes, i, e)
    case Instruction(n) =>
      && Opens(mode, bytes, i) && InstructionOpens(bytes, i) && InstructionCloses(bytes, i, i + n)
      && forall e: nat | e < i + n :: !InstructionCloses(bytes, i, e)
  }

  /** Pieces that follow one another between two places. */
  predicate Passes(mode: Mode, bytes: seq<Byte>, items: seq<Item>, from: nat, until: nat) {
    if items == [] then from == until
    else ItemAt(mode, bytes, from, items[0]) && Passes(mode, bytes, items[1..], from + items[0].Length(), until)
  }

  // ------------------------------------------------------------- through the loop

  lemma Occurrences(bytes: seq<Byte>, i: nat)
    ensures OccursAt(bytes, COMMENT_OPEN, i) <==> RemarkOpens(bytes, i)
    ensures OccursAt(bytes, PI_OPEN, i) <==> InstructionOpens(bytes, i)
    ensures OccursAt(bytes, COMMENT_END, i)
       <==> i + 3 <= |bytes| && bytes[i] == '-' as int && bytes[i + 1] == '-' as int && bytes[i + 2] == '>' as int
    ensures OccursAt(bytes, PI_END, i) <==> i + 2 <= |bytes| && bytes[i] == '?' as int && bytes[i + 1] == '>' as int
  {
    if i + 4 <= |bytes| { assert bytes[i..i + 4] == [bytes[i], bytes[i + 1], bytes[i + 2], bytes[i + 3]]; }
    if i + 3 <= |bytes| { assert bytes[i..i + 3] == [bytes[i], bytes[i + 1], bytes[i + 2]]; }
    if i + 2 <= |bytes| { assert bytes[i..i + 2] == [bytes[i], bytes[i + 1]]; }
  }

  /** What an iteration outside quotes, comments and instructions does, by shape. */
  lemma StepByShape(mode: Mode, bytes: seq<Byte>, limit: nat, i: nat)
    requires i < |bytes|
    ensures
      match LoopStep(mode, bytes, limit, i, START)
      case Halt(result) =>
        if i >= limit then result == Fail(LimitExceeded, limit) else Terminates(mode, bytes, i) && result == End(i + 1)
      case Wait => i < limit && !Terminates(mode, bytes, i) && !ItemAt(mode, bytes, i, Single)
      case Advance(j, next) =>
        && i < limit && !Terminates(mode, bytes, i)
        && if IsQuote(bytes[i]) then j == i + 1 && next == START.(quote := bytes[i])
           else if Opens(mode, bytes, i) && RemarkOpens(bytes, i) then j == i + 4 && next == START.(comment := true)
           else if Opens(mode, bytes, i) && InstructionOpens(bytes, i) then j == i + 2 && next == START.(pi := true)
           else j == i + 1 && next == START && ItemAt(mode, bytes, i, Single)
    ensures ItemAt(mode, bytes, i, Single) || (i < limit && (IsQuote(bytes[i]) || (Opens(mode, bytes, i)
              && (RemarkOpens(bytes, i) || InstructionOpens(bytes, i))))) ==>
      i >= limit || LoopStep(mode, bytes, limit, i, START).Advance?
  {
    hide OccursAt;
    Occurrences(bytes, i);
  }

  function InValue(quote: Byte): State { START.(quote := quote) }

  const IN_REMARK := START.(comment := true)
  const IN_INSTRUCTION := START.(pi := true)

  /** One byte of a value, a comment or an instruction. */
  lemma InsideStep(mode: Mode, bytes: seq<Byte>, limit: nat, i: nat, quote: Byte)
    requires i < |bytes| && IsQuote(quote)
    ensures LoopStep(mode, bytes, limit, i, InValue(quote))
         == if i >= limit then Halt(Fail(LimitExceeded, limit))
            else Advance(i + 1, if bytes[i] == quote then START else InValue(quote))
    ensures i >= 4 ==>
      LoopStep(mode, bytes, limit, i, IN_REMARK)
         == if i >= limit then Halt(Fail(LimitExceeded, limit))
            else if RemarkCloses(bytes, i - 4, i + 3) then Advance(i + 3, START)
            else if bytes[i] == '-' as int && |bytes| < i + 3 then Wait
            else Advance(i + 1, IN_REMARK)
    ensures i >= 2 ==>
      LoopStep(mode, bytes, limit, i, IN_INSTRUCTION)
         == if i >= limit then Halt(Fail(LimitExceeded, limit))
            else if InstructionCloses(bytes, i - 2, i + 2) then Advance(i + 2, START)
            else if bytes[i] == '?' as int && |bytes| < i + 2 then Wait
            else Advance(i + 1, IN_INSTRUCTION)
  {
    hide OccursAt;
    Occurrences(bytes, i);
  }

  lemma {:induction false} ValueRun(mode: Mode, bytes: seq<Byte>, limit: nat, i: nat, j: nat, quote: Byte)
    requires IsQuote(quote) && i <= j < |bytes| && j < limit && bytes[j] == quote
    requires forall k: nat | i <= k < j :: bytes[k] != quote
    ensures LoopRun(mode, bytes, limit, i, InValue(quote)) == LoopRun(mode, bytes, limit, j + 1, START)
    decreases j - i
  {
    hide LoopStep;
    InsideStep(mode, bytes, limit, i, quote);
    if i < j { ValueRun(mode, bytes, limit, i + 1, j, quote); }
  }

  lemma {:induction false} RemarkRun(mode: Mode, bytes: seq<Byte>, limit: nat, from: nat, i: nat, e: nat)
    requires from + 4 <= i && i + 3 <= e <= limit && RemarkCloses(bytes, from, e)
    requires forall d: nat | d < e :: !RemarkCloses(bytes, from, d)
    ensures LoopRun(mode, bytes, limit, i, IN_REMARK) == LoopRun(mode, bytes, limit, e, START)
    decreases e - i
  {
    hide LoopStep;
    InsideStep(mode, bytes, limit, i, '"' as int);
    assert RemarkCloses(bytes, i - 4, i + 3) <==> RemarkCloses(bytes, from, i + 3);
    if i + 3 < e { RemarkRun(mode, bytes, limit, from, i + 1, e); }
  }

  lemma {:induction false} InstructionRun(mode: Mode, bytes: seq<Byte>, limit: nat, from: nat, i: nat, e: nat)
    requires from + 2 <= i && i + 2 <= e <= limit && InstructionCloses(bytes, from, e)
    requires forall d: nat | d < e :: !InstructionCloses(bytes, from, d)
    ensures LoopRun(mode, bytes, limit, i, IN_INSTRUCTION) == LoopRun(mode, bytes, limit, e, START)
    decreases e - i
  {
    hide LoopStep;
    InsideStep(mode, bytes, limit, i, '"' as int);
    assert InstructionCloses(bytes, i - 2, i + 2) <==> InstructionCloses(bytes, from, i + 2);
    if i + 2 < e { InstructionRun(mode, bytes, limit, from, i + 1, e); }
  }

  /** The loop passes over a piece within the limit. */
  lemma ItemRun(mode: Mode, bytes: seq<Byte>, limit: nat, i: nat, item: Item)
    requires ItemAt(mode, bytes, i, item) && i + item.Length() <= limit
    ensures i + item.Length() <= |bytes| && item.Length() > 0
    ensures LoopRun(mode, bytes, limit, i, START) == LoopRun(mode, bytes, limit, i + item.Length(), START)
  {
    hide LoopStep;
    StepByShape(mode, bytes, limit, i);
    match item
    case Single =>
    case Value(n) => ValueRun(mode, bytes, limit, i + 1, i + n - 1, bytes[i]);
    case Remark(n) => RemarkRun(mode, bytes, limit, i, i + 4, i + n);
    case Instruction(n) => InstructionRun(mode, bytes, limit, i, i + 2, i + n);
  }

  lemma {:induction false} ItemsRun(mode: Mode, bytes: seq<Byte>, limit: nat, items: seq<Item>, from: nat, until: nat)
    requires Passes(mode, bytes, items, from, until) && until <= limit && until <= |bytes|
    ensures from <= until && LoopRun(mode, bytes, limit, from, START) == LoopRun(mode, bytes, limit, until, START)
    decreases |items|
  {
    hide LoopRun, ItemAt;
    if items != [] {
      PassesForward(mode, bytes, items[1..], from + items[0].Length(), until);
      ItemRun(mode, bytes, limit, from, items[0]);
      ItemsRun(mode, bytes, limit, items[1..], from + items[0].Length(), until);
    }
  }

  lemma {:induction false} PassesForward(mode: Mode, bytes: seq<Byte>, items: seq<Item>, from: nat, until: nat)
    requires Passes(mode, bytes, items, from, until)
    ensures from <= until
    decreases |items|
  {
    if items != [] { PassesForward(mode, bytes, items[1..], from + items[0].Length(), until); }
  }

  // -------------------------------------------------------------- and back again

  lemma {:induction false} ValueFound(mode: Mode, bytes: seq<Byte>, limit: nat, i: nat, quote: Byte, e: nat)
    returns (j: nat)
    requires IsQuote(quote) && i <= |bytes| && LoopRun(mode, bytes, limit, i, InValue(quote)) == Decided(End(e))
    ensures i <= j < |bytes| && bytes[j] == quote && forall k: nat | i <= k < j :: bytes[k] != quote
    ensures LoopRun(mode, bytes, limit, j + 1, START) == Decided(End(e))
    decreases |bytes| - i
  {
    hide LoopStep;
    InsideStep(mode, bytes, limit, i, quote);
    if bytes[i] == quote { j := i; } else { j := ValueFound(mode, bytes, limit, i + 1, quote, e); }
  }

  lemma {:induction false} RemarkFound(mode: Mode, bytes: seq<Byte>, limit: nat, from: nat, i: nat, e: nat)
    returns (j: nat)
    requires from + 4 <= i <= |bytes| && LoopRun(mode, bytes, limit, i, IN_REMARK) == Decided(End(e))
    requires forall d: nat | d < i + 3 :: !RemarkCloses(bytes, from, d)
    ensures i < j && RemarkCloses(bytes, from, j) && forall d: nat | d < j :: !RemarkCloses(bytes, from, d)
    ensures LoopRun(mode, bytes, limit, j, START) == Decided(End(e))
    decreases |bytes| - i
  {
    hide LoopStep;
    InsideStep(mode, bytes, limit, i, '"' as int);
    assert RemarkCloses(bytes, i - 4, i + 3) <==> RemarkCloses(bytes, from, i + 3);
    if RemarkCloses(bytes, from, i + 3) { j := i + 3; } else { j := RemarkFound(mode, bytes, limit, from, i + 1, e); }
  }

  lemma {:induction false} InstructionFound(mode: Mode, bytes: seq<Byte>, limit: nat, from: nat, i: nat, e: nat)
    returns (j: nat)
    requires from + 2 <= i <= |bytes| && LoopRun(mode, bytes, limit, i, IN_INSTRUCTION) == Decided(End(e))
    requires forall d: nat | d < i + 2 :: !InstructionCloses(bytes, from, d)
    ensures i < j && InstructionCloses(bytes, from, j) && forall d: nat | d < j :: !InstructionCloses(bytes, from, d)
    ensures LoopRun(mode, bytes, limit, j, START) == Decided(End(e))
    decreases |bytes| - i
  {
    hide LoopStep;
    InsideStep(mode, bytes, limit, i, '"' as int);
    assert InstructionCloses(bytes, i - 2, i + 2) <==> InstructionCloses(bytes, from, i + 2);
    if InstructionCloses(bytes, from, i + 2) { j := i + 2; }
    else { j := InstructionFound(mode, bytes, limit, from, i + 1, e); }
  }

  /** The piece the loop reads first when it comes to an end. */
  lemma ItemFound(mode: Mode, bytes: seq<Byte>, limit: nat, i: nat, e: nat) returns (item: Item)
    requires i < |bytes| && LoopRun(mode, bytes, limit, i, START) == Decided(End(e))
    requires !(Terminates(mode, bytes, i) && i < limit)
    ensures ItemAt(mode, bytes, i, item) && item.Length() > 0 && i + item.Length() <= |bytes|
    ensures LoopRun(mode, bytes, limit, i + item.Length(), START) == Decided(End(e))
  {
    hide LoopStep;
    StepByShape(mode, bytes, limit, i);
    item := Single;
    if IsQuote(bytes[i]) {
      var j := ValueFound(mode, bytes, limit, i + 1, bytes[i], e);
      item := Value(j + 1 - i);
    } else if Opens(mode, bytes, i) && RemarkOpens(bytes, i) {
      var j := RemarkFound(mode, bytes, limit, i, i + 4, e);
      item := Remark(j - i);
    } else if Opens(mode, bytes, i) && InstructionOpens(bytes, i) {
      var j := InstructionFound(mode, bytes, limit, i, i + 2, e);
      item := Instruction(j - i);
    }
  }

  lemma {:induction false} ItemsFound(mode: Mode, bytes: seq<Byte>, limit: nat, i: nat, e: nat)
    returns (items: seq<Item>)
    requires i <= |bytes| && LoopRun(mode, bytes, limit, i, START) == Decided(End(e))
    ensures i < e <= |bytes| && e <= limit && Terminates(mode, bytes, e - 1) && Passes(mode, bytes, items, i, e - 1)
    decreases |bytes| - i
  {
    hide LoopStep, ItemAt, Terminates;
    StepByShape(mode, bytes, limit, i);
    if Terminates(mode, bytes, i) && i < limit {
      items := [];
    } else {
      var item := ItemFound(mode, bytes, limit, i, e);
      var rest := ItemsFound(mode, bytes, limit, i + item.Length(), e);
      items := [item] + rest;
      assert items[1..] == rest;
    }
  }

  /** Some place is reached in whole pieces. */
  ghost predicate Reaches(mode: Mode, bytes: seq<Byte>, i: nat) {
    exists items :: Passes(mode, bytes, items, 0, i)
  }

  /** Pieces of a declaration from its start, and then the byte that ends the scan. */
  ghost predicate Declares(mode: Mode, bytes: seq<Byte>, e: nat) {
    1 <= e <= |bytes| && Terminates(mode, bytes, e - 1) && Reaches(mode, bytes, e - 1)
  }

  lemma LoopExactly(mode: Mode, bytes: seq<Byte>, limit: nat)
    ensures
      var report := LoopScan(mode, bytes, limit);
      && (forall e: nat :: report == End(e) <==> e <= limit && Declares(mode, bytes, e))
      && (report.Fail? ==> report == Fail(LimitExceeded, limit) && limit < |bytes|)
      && (report == Incomplete ==> |bytes| <= limit)
  {
    hide LoopRun, Passes, Terminates;
    var ran := LoopRun(mode, bytes, limit, 0, START);
    LoopFails(mode, bytes, limit, 0, START);
    NeverIncomplete(mode, bytes, limit, 0, START);
    if ran.Decided? && ran.result.End? {
      var items := ItemsFound(mode, bytes, limit, 0, ran.result.at);
    }
    forall e: nat | e <= limit && Declares(mode, bytes, e) ensures ran == Decided(End(e)) {
      var items :| Passes(mode, bytes, items, 0, e - 1);
      ItemsRun(mode, bytes, limit, items, 0, e - 1);
      TerminatorRun(mode, bytes, limit, e - 1);
    }
  }

  lemma TerminatorRun(mode: Mode, bytes: seq<Byte>, limit: nat, i: nat)
    requires i < limit && Terminates(mode, bytes, i)
    ensures i < |bytes| && LoopRun(mode, bytes, limit, i, START) == Decided(End(i + 1))
  {
    hide LoopStep;
    StepByShape(mode, bytes, limit, i);
    TerminatorHalts(mode, bytes, limit, i);
  }

  lemma TerminatorHalts(mode: Mode, bytes: seq<Byte>, limit: nat, i: nat)
    requires i < limit && Terminates(mode, bytes, i)
    ensures LoopStep(mode, bytes, limit, i, START).Halt?
  {}

  lemma {:induction false} NeverIncomplete(mode: Mode, bytes: seq<Byte>, limit: nat, i: nat, s: State)
    requires i <= |bytes|
    ensures LoopRun(mode, bytes, limit, i, s) != Decided(Incomplete)
    decreases |bytes| - i
  {
    if i < |bytes| {
      HaltsDecided(mode, bytes, limit, i, s);
      LoopUnfold(mode, bytes, limit, i, s);
      var step := LoopStep(mode, bytes, limit, i, s);
      hide LoopStep;
      if step.Advance? {
        AdvanceWithin(mode, bytes, limit, i, s);
        NeverIncomplete(mode, bytes, limit, step.index, step.state);
      }
    }
  }

  predicate OpensDeclaration(mode: Mode, text: string) {
    mode == DoctypeMode || mode == DtdMode || (mode == TagMode && |text| >= 2 && text[0] == '<' && text[1] == '!')
  }

  /** A declaration ends at the first terminator outside values, comments and instructions. */
  lemma DeclarationExactly(mode: Mode, rules: NameRules, text: string, limit: nat)
    requires OpensDeclaration(mode, text)
    ensures
      var bytes, report := Utf8(text), Token(mode, rules, text, limit);
      && (forall e: nat :: report == End(e) <==> e <= limit && Declares(mode, bytes, e))
      && (report.Fail? ==> report == Fail(LimitExceeded, limit) && limit < |bytes|)
      && (report == Incomplete ==> |bytes| <= limit)
  {
    hide LoopScan, Declares, Utf8;
    LoopExactly(mode, Utf8(text), limit);
  }
}
