/** Runs of ASCII text, and of blanks outside the root element, planned before they are consumed (text.rs). */
module TextPlans {
  import opened Unicode
  import opened Words
  import opened Wrappers
  import opened Positions

  const LIMIT: nat := 65_536

  const LF: Byte := 0x0A
  const TAB: Byte := 0x09
  const CR: Byte := 0x0D
  const SPACE: Byte := 0x20
  const AMP: Byte := 0x26
  const BRACKET: Byte := 0x5D

  // ------------------------------------------------------------- specification

  /** Bytes that end a plan: markup, and a line feed unless lines are coalesced. */
  predicate Delimiter(b: Byte, coalesce: bool) { b == LT || b == AMP || (b == LF && !coalesce) }

  /** Bytes a plan may cover. */
  predicate Covered(b: Byte, coalesce: bool) {
    !Delimiter(b, coalesce) && b != BRACKET && (b == TAB || b == LF || 0x20 <= b <= 0x7F)
  }

  /** A plan ends at the first delimiter, or with the text, or at a limit that a delimiter follows. */
  predicate PlanEnd(bytes: seq<Byte>, coalesce: bool, end: nat) {
    && end <= |bytes| && end <= LIMIT
    && (forall i: nat | i < end :: Covered(bytes[i], coalesce))
    && (end < |bytes| ==> Delimiter(bytes[end], coalesce))
  }

  /** The specification leaves no choice: a text has at most one plan end. */
  lemma PlanEndUnique(bytes: seq<Byte>, coalesce: bool, a: nat, b: nat)
    requires PlanEnd(bytes, coalesce, a) && PlanEnd(bytes, coalesce, b)
    ensures a == b
  {
    assert a < b ==> Covered(bytes[a], coalesce);
    assert b < a ==> Covered(bytes[b], coalesce);
  }

  /** How many line feeds, and where the text after the last one starts. */
  function Newlines(bytes: seq<Byte>): (n: nat) {
    if bytes == [] then 0
    else Newlines(bytes[..|bytes| - 1]) + if bytes[|bytes| - 1] == LF then 1 else 0
  }

  function LineStart(bytes: seq<Byte>): (n: nat)
    ensures n <= |bytes|
  {
    if bytes == [] then 0
    else if bytes[|bytes| - 1] == LF then |bytes|
    else LineStart(bytes[..|bytes| - 1])
  }

  datatype TextPlan = TextPlan(end: nat, newlines: nat, trailingColumns: nat, leadingLf: bool)
  {
    /** What a plan says about the bytes it covers. */
    predicate Describes(bytes: seq<Byte>) {
      && end <= |bytes| && newlines == Newlines(bytes[..end])
      && trailingColumns == end - LineStart(bytes[..end])
      && leadingLf == (bytes != [] && bytes[0] == LF)
    }

    /** `advance_position`: what the plan makes of the coordinates it is committed at, after a CR or not. */
    function AdvancePosition(at: Coordinates): Coordinates
      requires leadingLf && end > 0 ==> newlines > 0
    {
      if end == 0 then at
      else if newlines == 0 then Coordinates(at.line, at.column + end, false)
      else
        Coordinates(at.line + (newlines - if leadingLf && at.previousCr then 1 else 0), trailingColumns, false)
    }
  }

  /** Committing a plan moves any coordinates exactly as the scalar fold over the text it covers. */
  ghost predicate Commits(plan: TextPlan, text: string) {
    && (plan.leadingLf && plan.end > 0 ==> plan.newlines > 0)
    && plan.end <= |text| && Len(text[..plan.end]) == plan.end
    && forall at: Coordinates :: plan.AdvancePosition(at) == Advance(at, text[..plan.end])
  }

  lemma PlanCommits(plan: TextPlan, text: string)
    requires plan.Describes(Utf8(text)) && forall i: nat | i < plan.end :: Utf8(text)[i] < 0x80 && Utf8(text)[i] != CR
    ensures Commits(plan, text)
  {
    PlanAdvances(plan, text, Coordinates(1, 0, false));
    forall at: Coordinates ensures plan.AdvancePosition(at) == Advance(at, text[..plan.end]) {
      PlanAdvances(plan, text, at);
    }
  }

  lemma LeadingPlanCommits(text: string)
    requires text != "" && text[0] == '\n'
    ensures Commits(TextPlan(1, 1, 0, true), text)
  {
    var plan := TextPlan(1, 1, 0, true);
    assert text[..1] == "\n";
    forall at: Coordinates ensures plan.AdvancePosition(at) == Advance(at, text[..1]) {
      assert Advance(at, "\n") == Advance(Step(at, '\n'), "");
    }
  }

  lemma PlanAdvances(plan: TextPlan, text: string, at: Coordinates)
    requires plan.Describes(Utf8(text)) && forall i: nat | i < plan.end :: Utf8(text)[i] < 0x80 && Utf8(text)[i] != CR
    ensures plan.leadingLf && plan.end > 0 ==> plan.newlines > 0
    ensures plan.end <= |text| && Len(text[..plan.end]) == plan.end
    ensures plan.AdvancePosition(at) == Advance(at, text[..plan.end])
  {
    AsciiPrefix(text, plan.end);
    var covered := Utf8(text)[..plan.end];
    forall i: nat | i < plan.end ensures text[..plan.end][i] as int == covered[i] {}
    AdvanceCounts(at, text[..plan.end], covered);
    if plan.end > 0 && covered[0] == LF { LeadingCounts(covered); }
  }

  lemma {:induction false} LeadingCounts(bytes: seq<Byte>)
    requires bytes != [] && bytes[0] == LF
    ensures Newlines(bytes) > 0
  {
    if |bytes| > 1 { LeadingCounts(bytes[..|bytes| - 1]); }
  }

  lemma {:induction false} AdvanceCounts(at: Coordinates, text: string, bytes: seq<Byte>)
    requires |text| == |bytes| && forall i: nat | i < |text| :: text[i] as int == bytes[i] && text[i] != '\r'
    ensures
      var to := Advance(at, text);
      if text == "" then to == at
      else
        && to.line == at.line + Newlines(bytes) - (if text[0] == '\n' && at.previousCr then 1 else 0)
        && to.column == (if Newlines(bytes) == 0 then at.column else 0) + |bytes| - LineStart(bytes)
        && (Newlines(bytes) == 0 ==> LineStart(bytes) == 0)
        && !to.previousCr
  {
    if text != "" {
      var n := |text| - 1;
      AdvanceCounts(at, text[..n], bytes[..n]);
      AdvanceSplit(at, text, n);
      assert text[n..] == [text[n]];
      assert Advance(Advance(at, text[..n]), [text[n]]) == Step(Advance(at, text[..n]), text[n]);
    }
  }

  // --------------------------------------------------------------- 16-byte lanes

  /** A byte seen as a signed lane. */
  function Signed(b: Byte): int { if b < 0x80 then b else b - 256 }

  /** A lane mask, lowest lane first. */
  type Mask = m: seq<bool> | |m| == 16 witness seq(16, _ => false)

  /** `ascii_masks`: stops and line feeds of a chunk. */
  function AsciiMasks(chunk: seq<Byte>): (masks: (Mask, Mask))
    requires |chunk| == 16
  {
    (seq(16, i requires 0 <= i < 16 =>
       (Signed(chunk[i]) < 0x20 && !(chunk[i] == LF || chunk[i] == TAB))
       || chunk[i] == LT || chunk[i] == AMP || chunk[i] == BRACKET),
     seq(16, i requires 0 <= i < 16 => chunk[i] == LF))
  }

  function FirstSet(mask: seq<bool>): (n: nat)
    ensures n <= |mask| && (n < |mask| ==> mask[n]) && forall i: nat | i < n :: !mask[i]
  {
    if mask == [] || mask[0] then 0 else 1 + FirstSet(mask[1..])
  }

  /** `count_ones`. */
  function Ones(mask: seq<bool>): nat {
    if mask == [] then 0 else Ones(mask[..|mask| - 1]) + if mask[|mask| - 1] then 1 else 0
  }

  /** `BITS - leading_zeros`: one past the highest set lane, or zero. */
  function HighestSet(mask: seq<bool>): (n: nat)
    ensures n <= |mask|
  {
    if mask == [] then 0 else if mask[|mask| - 1] then |mask| else HighestSet(mask[..|mask| - 1])
  }

  lemma {:induction false} LanesCount(bytes: seq<Byte>, from: nat, lanes: seq<bool>)
    requires from + |lanes| <= |bytes| && forall i: nat | i < |lanes| :: lanes[i] == (bytes[from + i] == LF)
    ensures Newlines(bytes[..from + |lanes|]) == Newlines(bytes[..from]) + Ones(lanes)
    ensures LineStart(bytes[..from + |lanes|])
         == if Ones(lanes) == 0 then LineStart(bytes[..from]) else from + HighestSet(lanes)
  {
    if lanes != [] {
      var n := |lanes| - 1;
      LanesCount(bytes, from, lanes[..n]);
      assert bytes[..from + n + 1][..from + n] == bytes[..from + n];
    } else {
      assert bytes[..from + 0] == bytes[..from];
    }
  }

  /** The lanes where a plan stops: not coalescing makes line feeds stops as well. */
  function StopLanes(chunk: seq<Byte>, coalesce: bool): (stops: Mask)
    requires |chunk| == 16
    ensures forall i: nat | i < 16 :: stops[i] == !Covered(chunk[i], coalesce)
  {
    var (stops, linefeeds) := AsciiMasks(chunk);
    if coalesce then stops else seq(16, i requires 0 <= i < 16 => stops[i] || linefeeds[i])
  }

  // --------------------------------------------------------------- 8-byte words

  function WordMarks(word: bv64): bv64 {
    var lt := word ^ 0x3C3C_3C3C_3C3C_3C3C;
    var amp := word ^ 0x2626_2626_2626_2626;
    var bracket := word ^ 0x5D5D_5D5D_5D5D_5D5D;
    word
    | ((word - 0x2020_2020_2020_2020) & !word)
    | ((lt - LOW) & !lt) | ((amp - LOW) & !amp) | ((bracket - LOW) & !bracket)
  }

  predicate PrintableLane(b: bv8) { 0x20 <= b < 0x80 && b != 0x3C && b != 0x26 && b != 0x5D }

  predicate Printable(b: Byte) { 0x20 <= b < 0x80 && b != LT && b != AMP && b != BRACKET }

  lemma PrintableOctet(b: Byte)
    ensures PrintableLane(b as bv8) <==> Printable(b)
  {
    OctetBounds(b);
    OctetEquals(b, 0x3C);
    OctetEquals(b, 0x26);
    OctetEquals(b, 0x5D);
  }

  lemma UnmarkedPrintable(b0: bv8, b1: bv8, b2: bv8, b3: bv8, b4: bv8, b5: bv8, b6: bv8, b7: bv8)
    requires WordMarks(Load(b0, b1, b2, b3, b4, b5, b6, b7)) & HIGH == 0
    ensures PrintableLane(b0) && PrintableLane(b1) && PrintableLane(b2) && PrintableLane(b3)
    ensures PrintableLane(b4) && PrintableLane(b5) && PrintableLane(b6) && PrintableLane(b7)
  {}

  lemma WordPrintable(chunk: seq<Byte>)
    requires |chunk| == 8 && WordMarks(Word(chunk)) & HIGH == 0
    ensures forall i: nat | i < 8 :: Printable(chunk[i])
  {
    hide WordMarks, Load;
    forall i: nat | i < 8 ensures PrintableLane(chunk[i] as bv8) <==> Printable(chunk[i]) {
      hide *;
      PrintableOctet(chunk[i]);
    }
    UnmarkedPrintable(chunk[0] as bv8, chunk[1] as bv8, chunk[2] as bv8, chunk[3] as bv8,
                      chunk[4] as bv8, chunk[5] as bv8, chunk[6] as bv8, chunk[7] as bv8);
  }

  lemma {:induction false} FlatRun(bytes: seq<Byte>, from: nat, until: nat)
    requires from <= until <= |bytes| && forall i: nat | from <= i < until :: bytes[i] != LF
    ensures Newlines(bytes[..until]) == Newlines(bytes[..from]) && LineStart(bytes[..until]) == LineStart(bytes[..from])
    decreases until
  {
    if from < until {
      assert bytes[..until][..until - 1] == bytes[..until - 1];
      FlatRun(bytes, from, until - 1);
    }
  }

  // ------------------------------------------------------------------- scanning

  /** What a scan knows after `end` bytes. */
  ghost predicate Scanned(bytes: seq<Byte>, coalesce: bool, end: nat, newlines: nat, lastLineEnd: nat) {
    && end <= |bytes| && (forall i: nat | i < end :: Covered(bytes[i], coalesce))
    && newlines == Newlines(bytes[..end]) && lastLineEnd == LineStart(bytes[..end])
  }

  /** After covered bytes, an uncertain byte refutes every plan, and so does passing the limit. */
  lemma Refuted(bytes: seq<Byte>, coalesce: bool, at: nat)
    requires at < |bytes| && !Delimiter(bytes[at], coalesce)
    requires !Covered(bytes[at], coalesce) || at == LIMIT
    requires forall i: nat | i < at :: Covered(bytes[i], coalesce)
    ensures forall end: nat :: !PlanEnd(bytes, coalesce, end)
  {
    forall end: nat ensures !PlanEnd(bytes, coalesce, end) {
      if end < at { assert Covered(bytes[end], coalesce); }
    }
  }

  /** How a run of bytes ended. */
  datatype Stop = Going | AtDelimiter | Uncertain

  /** `TextPlan::scan`: a plan exactly when the scalar specification allows one. */
  method Scan(text: string, coalesce: bool) returns (plan: Option<TextPlan>)
    ensures !coalesce && text != "" && text[0] == '\n' ==> plan == Some(TextPlan(1, 1, 0, true))
    ensures coalesce || text == "" || text[0] != '\n' ==>
      match plan
      case Some(p) =>
        p.Describes(Utf8(text)) && forall end: nat :: PlanEnd(Utf8(text), coalesce, end) <==> end == p.end
      case None => forall end: nat :: !PlanEnd(Utf8(text), coalesce, end)
    ensures plan.Some? ==> Commits(plan.value, text)
  {
    var bytes := Utf8(text);
    FirstByte(text);
    if !coalesce && bytes != [] && bytes[0] == LF {
      LeadingPlanCommits(text);
      return Some(TextPlan(1, 1, 0, true));
    }
    var limit := if |bytes| < LIMIT then |bytes| else LIMIT;
    var end: nat, newlines: nat, lastLineEnd: nat := 0, 0, 0;
    var stop := Going;
    while end < limit && stop == Going
      invariant end <= limit && Scanned(bytes, coalesce, end, newlines, lastLineEnd)
      invariant StoppedAt(bytes, coalesce, end, stop) && stop != Uncertain
      decreases limit - end, stop == Going
    {
      hide *;
      var scalarEnd := if end + 8 < limit then end + 8 else limit;
      if limit - end >= 16 {
        stop, end, newlines, lastLineEnd := ScanLanes(bytes, coalesce, end, newlines, lastLineEnd);
      } else {
        var printable := false;
        if limit - end >= 8 {
          printable := SkipWord(bytes, coalesce, end, newlines, lastLineEnd);
        }
        if printable {
          end := end + 8;
        } else {
          stop, end, newlines, lastLineEnd :=
            ScanScalars(bytes, coalesce, end, newlines, lastLineEnd, scalarEnd);
        }
      }
      if stop == Uncertain {
        UncertainRefutes(bytes, coalesce, end, newlines, lastLineEnd);
        return None;
      }
    }
    if end == LIMIT && |bytes| > LIMIT && !Delimiter(bytes[end], coalesce) {
      Refuted(bytes, coalesce, end);
      return None;
    }
    var result := TextPlan(end, newlines, end - lastLineEnd, bytes != [] && bytes[0] == LF);
    PlanCommits(result, text);
    assert PlanEnd(bytes, coalesce, end);
    forall other: nat | PlanEnd(bytes, coalesce, other) ensures other == end {
      PlanEndUnique(bytes, coalesce, other, end);
    }
    return Some(result);
  }

  ghost predicate StoppedAt(bytes: seq<Byte>, coalesce: bool, end: nat, stop: Stop) {
    stop != Going ==>
      end < |bytes| && !Covered(bytes[end], coalesce) && (stop == AtDelimiter <==> Delimiter(bytes[end], coalesce))
  }

  lemma UncertainRefutes(bytes: seq<Byte>, coalesce: bool, end: nat, newlines: nat, lastLineEnd: nat)
    requires Scanned(bytes, coalesce, end, newlines, lastLineEnd) && StoppedAt(bytes, coalesce, end, Uncertain)
    ensures forall e: nat :: !PlanEnd(bytes, coalesce, e)
  {
    Refuted(bytes, coalesce, end);
  }

  /** The eight-byte shortcut: only printable bytes without markup. */
  method SkipWord(bytes: seq<Byte>, coalesce: bool, end: nat, ghost newlines: nat, ghost lastLineEnd: nat)
    returns (printable: bool)
    requires end + 8 <= |bytes| && Scanned(bytes, coalesce, end, newlines, lastLineEnd)
    ensures printable ==> Scanned(bytes, coalesce, end + 8, newlines, lastLineEnd)
  {
    var chunk := bytes[end..end + 8];
    printable := WordMarks(Word(chunk)) & HIGH == 0;
    if printable {
      WordPrintable(chunk);
      SkipPrintable(bytes, coalesce, end, newlines, lastLineEnd, chunk);
    }
  }

  /** The scalar loop over at most eight bytes. */
  method ScanScalars(bytes: seq<Byte>, coalesce: bool, from: nat, lines: nat, start: nat, scalarEnd: nat)
    returns (stop: Stop, end: nat, newlines: nat, lastLineEnd: nat)
    requires from < scalarEnd <= |bytes| && Scanned(bytes, coalesce, from, lines, start)
    ensures end <= scalarEnd && Scanned(bytes, coalesce, end, newlines, lastLineEnd)
    ensures StoppedAt(bytes, coalesce, end, stop) && from <= end
    ensures stop == Going ==> end == scalarEnd
  {
    end, newlines, lastLineEnd := from, lines, start;
    while end < scalarEnd
      invariant from <= end <= scalarEnd && Scanned(bytes, coalesce, end, newlines, lastLineEnd)
    {
      var b := bytes[end];
      if Delimiter(b, coalesce) {
        return AtDelimiter, end, newlines, lastLineEnd;
      }
      ScalarStep(bytes, end);
      if b == LF {
        newlines, lastLineEnd := newlines + 1, end + 1;
      } else if !((b == TAB || 0x20 <= b <= 0x7F) && b != BRACKET) {
        return Uncertain, end, newlines, lastLineEnd;
      }
      end := end + 1;
    }
    stop := Going;
  }

  lemma FirstByte(text: string)
    ensures text == "" <==> Utf8(text) == []
    ensures text != "" ==> (Utf8(text)[0] == LF <==> text[0] == '\n')
  {
    if text != "" { assert Utf8(text)[0] == Encode(text[0])[0]; }
  }

  lemma SkipPrintable(bytes: seq<Byte>, coalesce: bool, end: nat, newlines: nat, lastLineEnd: nat, chunk: seq<Byte>)
    requires Scanned(bytes, coalesce, end, newlines, lastLineEnd) && end + 8 <= |bytes|
    requires chunk == bytes[end..end + 8] && forall i: nat | i < 8 :: Printable(chunk[i])
    ensures Scanned(bytes, coalesce, end + 8, newlines, lastLineEnd)
  {
    forall i: nat | end <= i < end + 8 ensures Printable(bytes[i]) {
      assert bytes[i] == chunk[i - end];
    }
    FlatRun(bytes, end, end + 8);
  }

  lemma ScalarStep(bytes: seq<Byte>, end: nat)
    requires end < |bytes|
    ensures Newlines(bytes[..end + 1]) == Newlines(bytes[..end]) + if bytes[end] == LF then 1 else 0
    ensures LineStart(bytes[..end + 1]) == if bytes[end] == LF then end + 1 else LineStart(bytes[..end])
  {
    assert bytes[..end + 1][..end] == bytes[..end];
  }

  /** Sixteen lanes at once: advance over the lanes before the first stop. */
  method ScanLanes(bytes: seq<Byte>, coalesce: bool, from: nat, lines: nat, start: nat)
    returns (stop: Stop, end: nat, newlines: nat, lastLineEnd: nat)
    requires from + 16 <= |bytes| && Scanned(bytes, coalesce, from, lines, start)
    ensures from <= end <= from + 16 && Scanned(bytes, coalesce, end, newlines, lastLineEnd)
    ensures StoppedAt(bytes, coalesce, end, stop)
    ensures stop == Going ==> end == from + 16
  {
    hide AsciiMasks, StopLanes, Scanned;
    var chunk := bytes[from..from + 16];
    var linefeeds := AsciiMasks(chunk).1;
    var stops := StopLanes(chunk, coalesce);
    var span := FirstSet(stops);
    newlines, lastLineEnd, stop := lines, start, Going;
    if span < 16 {
      stop := if chunk[span] == LT || chunk[span] == AMP || chunk[span] == LF then AtDelimiter else Uncertain;
      assert chunk[span] == bytes[from + span];
    }
    var prefix := linefeeds[..span];
    if Ones(prefix) != 0 {
      newlines := newlines + Ones(prefix);
      lastLineEnd := from + HighestSet(prefix);
    }
    end := from + span;
    SpanScanned(bytes, coalesce, from, span, lines, start);
  }

  predicate AllClear(mask: Mask, n: nat)
    requires n <= 16
  {
    forall i: nat | i < n :: !mask[i]
  }

  lemma SpanScanned(bytes: seq<Byte>, coalesce: bool, from: nat, span: nat, lines: nat, start: nat)
    requires from + 16 <= |bytes| && span <= 16 && Scanned(bytes, coalesce, from, lines, start)
    requires AllClear(StopLanes(bytes[from..from + 16], coalesce), span)
    ensures
      var lanes := AsciiMasks(bytes[from..from + 16]).1[..span];
      Scanned(bytes, coalesce, from + span, lines + Ones(lanes),
              if Ones(lanes) == 0 then start else from + HighestSet(lanes))
  {
    hide Ones, HighestSet, Newlines, LineStart, Covered;
    var chunk := bytes[from..from + 16];
    LanesCount(bytes, from, AsciiMasks(chunk).1[..span]);
    forall i: nat | from <= i < from + span ensures Covered(bytes[i], coalesce) {
      assert !StopLanes(chunk, coalesce)[i - from];
      assert chunk[i - from] == bytes[i];
    }
  }

  // ---------------------------------------------------------- outer whitespace

  /** One noncoalesced space or tab token, followed by a boundary. */
  predicate WhitespaceEnd(bytes: seq<Byte>, end: nat) {
    && 0 < end <= |bytes| && (forall i: nat | i < end :: bytes[i] == SPACE || bytes[i] == TAB)
    && (end < |bytes| ==> bytes[end] == LT || bytes[end] == AMP || bytes[end] == CR || bytes[end] == LF)
  }

  method ScanOuterWhitespace(text: string) returns (plan: Option<TextPlan>)
    ensures match plan
      case Some(p) => WhitespaceEnd(Utf8(text), p.end) && p.Describes(Utf8(text))
      case None => forall end: nat :: !WhitespaceEnd(Utf8(text), end)
    ensures plan.Some? ==> Commits(plan.value, text)
  {
    var bytes := Utf8(text);
    var end := 0;
    while |bytes| - end >= 16
      invariant 0 <= end <= |bytes| && forall i: nat | i < end :: bytes[i] == SPACE || bytes[i] == TAB
    {
      var stops := seq(16, i requires 0 <= i < 16 => !(bytes[end + i] == SPACE || bytes[end + i] == TAB));
      var span := FirstSet(stops);
      forall i: nat | end <= i < end + span ensures bytes[i] == SPACE || bytes[i] == TAB {
        assert !stops[i - end];
      }
      end := end + span;
      if span < 16 {
        break;
      }
    }
    while end < |bytes| && (bytes[end] == SPACE || bytes[end] == TAB)
      invariant 0 <= end <= |bytes| && forall i: nat | i < end :: bytes[i] == SPACE || bytes[i] == TAB
    {
      end := end + 1;
    }
    if end == 0 || (end < |bytes| && !(bytes[end] == LT || bytes[end] == AMP || bytes[end] == CR || bytes[end] == LF)) {
      forall e: nat ensures !WhitespaceEnd(bytes, e) {
        if e < end { assert bytes[e] == SPACE || bytes[e] == TAB; }
      }
      return None;
    }
    FlatRun(bytes, 0, end);
    assert bytes[..0] == [];
    PlanCommits(TextPlan(end, 0, end, false), text);
    return Some(TextPlan(end, 0, end, false));
  }
}
