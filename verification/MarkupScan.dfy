/** The scan of document type and DTD declarations, which looks ahead in comments,
    instructions and quotes (encoding.rs). */
module MarkupScan {
  import opened Unicode
  import opened Errors
  import opened Scanners

  datatype Mode = TagMode | CommentMode | PiMode | DoctypeMode | DtdMode

  datatype State = State(quote: Byte, brackets: nat, comment: bool, pi: bool)

  const START := State(0, 0, false, false)

  /** One iteration: wait for more bytes, stop, or go on. */
  datatype LoopMove = Wait | Halt(result: ScanResult) | Advance(index: nat, state: State)

  const COMMENT_OPEN: seq<Byte> := [LT, BANG, DASH, DASH]
  const PI_OPEN: seq<Byte> := [LT, QUESTION]

  predicate WhitespaceByte(b: Byte) { b == 0x20 || b == 0x09 || b == 0x0D || b == 0x0A }

  /** A byte outside quotes, comments and instructions. */
  function PlainStep(mode: Mode, bytes: seq<Byte>, index: nat, s: State): LoopMove
    requires index < |bytes|
  {
    var b := bytes[index];
    var next := Advance(index + 1, s);
    if b == APOS || b == QUOTE then Advance(index + 1, s.(quote := b))
    else if b == PERCENT && mode == DtdMode then
      if index + 1 == |bytes| then Wait
      else if !WhitespaceByte(bytes[index + 1]) then Halt(End(index + 1))
      else next
    else if b == OPEN && mode == DoctypeMode then Halt(End(index + 1))
    else if b == CLOSE && mode == DoctypeMode then
      Advance(index + 1, s.(brackets := if s.brackets == 0 then 0 else s.brackets - 1))
    else if b == GT && s.brackets == 0 then Halt(End(index + 1))
    else next
  }

  function LoopStep(mode: Mode, bytes: seq<Byte>, limit: nat, index: nat, s: State): LoopMove
    requires index < |bytes|
  {
    var b := bytes[index];
    var left := |bytes| - index;
    if index >= limit then Halt(Fail(LimitExceeded, limit))
    else if s.comment then
      if OccursAt(bytes, COMMENT_END, index) then Advance(index + 3, s.(comment := false))
      else if b == DASH && left < 3 then Wait
      else Advance(index + 1, s)
    else if s.pi then
      if OccursAt(bytes, PI_END, index) then Advance(index + 2, s.(pi := false))
      else if b == QUESTION && left < 2 then Wait
      else Advance(index + 1, s)
    else if s.quote != 0 then Advance(index + 1, if b == s.quote then s.(quote := 0) else s)
    else if mode == DoctypeMode && b == LT && index != 0 then
      if OccursAt(bytes, COMMENT_OPEN, index) then Advance(index + 4, s.(comment := true))
      else if OccursAt(bytes, PI_OPEN, index) then Advance(index + 2, s.(pi := true))
      else if left < 4 then Wait
      else Advance(index + 1, s)
    else PlainStep(mode, bytes, index, s)
  }

  datatype LoopRan = Decided(result: ScanResult) | Paused(index: nat, state: State)

  function LoopRun(mode: Mode, bytes: seq<Byte>, limit: nat, index: nat, s: State): (ran: LoopRan)
    requires index <= |bytes|
    ensures ran.Paused? ==> index <= ran.index <= |bytes|
    decreases |bytes| - index
  {
    if index == |bytes| then Paused(index, s)
    else
      match LoopStep(mode, bytes, limit, index, s)
      case Wait => Paused(index, s)
      case Halt(result) => Decided(result)
      case Advance(at, next) => LoopRun(mode, bytes, limit, at, next)
  }

  function Report(ran: LoopRan, length: nat, limit: nat): ScanResult {
    match ran
    case Decided(result) => result
    case Paused(_, _) => if length > limit then Fail(LimitExceeded, limit) else Incomplete
  }

  /** The scan of all the available bytes. */
  function LoopScan(mode: Mode, bytes: seq<Byte>, limit: nat): ScanResult {
    Report(LoopRun(mode, bytes, limit, 0, START), |bytes|, limit)
  }

  /** An iteration that does not wait does the same when more bytes follow. */
  lemma StepStable(mode: Mode, a: seq<Byte>, more: seq<Byte>, limit: nat, index: nat, s: State)
    requires index < |a| && LoopStep(mode, a, limit, index, s) != Wait
    ensures LoopStep(mode, a + more, limit, index, s) == LoopStep(mode, a, limit, index, s)
  {
    hide OccursAt, PlainStep;
    assert (a + more)[index] == a[index];
    if PlainStep(mode, a, index, s) != Wait { PlainStable(mode, a, more, index, s); }
    Occurrence(a, more, COMMENT_END, index);
    Occurrence(a, more, PI_END, index);
    Occurrence(a, more, COMMENT_OPEN, index);
    Occurrence(a, more, PI_OPEN, index);
    OneOpener(a, index);
    OneOpener(a + more, index);
  }

  /** What opens an instruction opens no comment. */
  lemma OneOpener(bytes: seq<Byte>, index: nat)
    ensures OccursAt(bytes, PI_OPEN, index) ==> index + 2 <= |bytes| && !OccursAt(bytes, COMMENT_OPEN, index)
  {
    assert index + 2 <= |bytes| ==> bytes[index..index + 2][1] == bytes[index + 1];
    assert index + 4 <= |bytes| ==> bytes[index..index + 4][1] == bytes[index + 1];
  }

  lemma PlainStable(mode: Mode, a: seq<Byte>, more: seq<Byte>, index: nat, s: State)
    requires index < |a| && PlainStep(mode, a, index, s) != Wait
    ensures PlainStep(mode, a + more, index, s) == PlainStep(mode, a, index, s)
  {
    assert (a + more)[index] == a[index];
    assert index + 1 < |a| ==> (a + more)[index + 1] == a[index + 1];
  }

  /** Whether a pattern occurs is settled by enough bytes, or by its first byte. */
  lemma Occurrence(a: seq<Byte>, more: seq<Byte>, pattern: seq<Byte>, index: nat)
    requires index < |a| && pattern != []
    ensures |a| - index >= |pattern| || a[index] != pattern[0] ==>
      OccursAt(a + more, pattern, index) == OccursAt(a, pattern, index)
    ensures OccursAt(a, pattern, index) ==> |a| - index >= |pattern|
  {
    if |a| - index >= |pattern| {
      OccursStable(a, more, pattern, index);
    } else if a[index] != pattern[0] && index + |pattern| <= |a + more| {
      assert (a + more)[index..index + |pattern|][0] == a[index];
    }
  }

  /** A paused scan resumes where it stopped; a decided one stays decided. */
  lemma {:induction false} LoopResumes(mode: Mode, a: seq<Byte>, more: seq<Byte>, limit: nat, index: nat, s: State)
    requires index <= |a|
    ensures
      match LoopRun(mode, a, limit, index, s)
      case Decided(result) => LoopRun(mode, a + more, limit, index, s) == Decided(result)
      case Paused(at, reached) => LoopRun(mode, a + more, limit, index, s) == LoopRun(mode, a + more, limit, at, reached)
    decreases |a| - index
  {
    hide LoopStep;
    if index < |a| {
      var step := LoopStep(mode, a, limit, index, s);
      if step != Wait {
        StepStable(mode, a, more, limit, index, s);
        if step.Advance? {
          AdvanceWithin(mode, a, limit, index, s);
          LoopResumes(mode, a, more, limit, step.index, step.state);
        }
      }
    }
  }

  /** A scan pauses at the end of the bytes or where it has to wait. */
  lemma {:induction false} PausedReason(mode: Mode, bytes: seq<Byte>, limit: nat, index: nat, s: State)
    requires index <= |bytes|
    ensures
      var ran := LoopRun(mode, bytes, limit, index, s);
      ran.Paused? && ran.index < |bytes| ==> LoopStep(mode, bytes, limit, ran.index, ran.state) == Wait
    decreases |bytes| - index
  {
    if index < |bytes| && LoopStep(mode, bytes, limit, index, s).Advance? {
      var step := LoopStep(mode, bytes, limit, index, s);
      PausedReason(mode, bytes, limit, step.index, step.state);
    }
  }

  lemma AdvanceWithin(mode: Mode, bytes: seq<Byte>, limit: nat, index: nat, s: State)
    requires index < |bytes| && LoopStep(mode, bytes, limit, index, s).Advance?
    ensures index < LoopStep(mode, bytes, limit, index, s).index <= |bytes|
  {}

  // ------------------------------------------------------------------ the byte limit

  /** A document type scan that waits just before its limit at a `<` which turns out to open
      neither a comment nor an instruction: the next byte decides, and it is inside the limit. */
  predicate CutByLimit(mode: Mode, a: seq<Byte>, limit: nat) {
    && mode == DoctypeMode && |a| == limit + 1 && limit >= 2
    && (a[limit - 1] == OPEN || a[limit - 1] == GT)
    && match LoopRun(mode, a, limit, 0, START)
       case Paused(at, s) => at == limit - 2 && !s.comment && !s.pi && s.quote == 0
       case Decided(_) => false
  }

  /** Brackets are only ever closed, so their count never leaves zero. */
  lemma {:induction false} NoBrackets(mode: Mode, bytes: seq<Byte>, limit: nat, index: nat, s: State)
    requires index <= |bytes| && s.brackets == 0
    ensures
      var ran := LoopRun(mode, bytes, limit, index, s);
      ran.Paused? ==> ran.state.brackets == 0
    decreases |bytes| - index
  {
    if index < |bytes| && LoopStep(mode, bytes, limit, index, s).Advance? {
      var step := LoopStep(mode, bytes, limit, index, s);
      NoBrackets(mode, bytes, limit, step.index, step.state);
    }
  }

  /** Past the limit every continuation fails at the limit. */
  lemma PastLimit(mode: Mode, bytes: seq<Byte>, limit: nat, index: nat, s: State)
    requires limit <= index <= |bytes| && limit < |bytes|
    ensures Report(LoopRun(mode, bytes, limit, index, s), |bytes|, limit) == Fail(LimitExceeded, limit)
  {}

  /** The loop only ever fails at the limit, and only behind it. */
  lemma {:induction false} LoopFails(mode: Mode, bytes: seq<Byte>, limit: nat, index: nat, s: State)
    requires index <= |bytes|
    ensures
      var ran := LoopRun(mode, bytes, limit, index, s);
      ran.Decided? && ran.result.Fail? ==> ran.result == Fail(LimitExceeded, limit) && limit < |bytes|
    decreases |bytes| - index
  {
    if index < |bytes| && LoopStep(mode, bytes, limit, index, s).Advance? {
      var step := LoopStep(mode, bytes, limit, index, s);
      LoopFails(mode, bytes, limit, step.index, step.state);
    }
  }

  /** Splitting the input is invisible exactly when the limit does not cut a waiting `<`. */
  lemma SplitInvisible(mode: Mode, a: seq<Byte>, more: seq<Byte>, limit: nat)
    requires more != [] && LoopScan(mode, a, limit) != Incomplete
    ensures LoopScan(mode, a + more, limit) == LoopScan(mode, a, limit) <==> !CutByLimit(mode, a, limit)
  {
    hide LoopStep;
    var ran := LoopRun(mode, a, limit, 0, START);
    LoopResumes(mode, a, more, limit, 0, START);
    if ran.Paused? {
      NoBrackets(mode, a, limit, 0, START);
      PausedReason(mode, a, limit, 0, START);
      PausedAtLimit(mode, a, more, limit, ran.index, ran.state);
    }
  }

  lemma PausedAtLimit(mode: Mode, a: seq<Byte>, more: seq<Byte>, limit: nat, index: nat, s: State)
    requires more != [] && limit < |a| && index <= |a| && s.brackets == 0
    requires index == |a| || LoopStep(mode, a, limit, index, s) == Wait
    ensures
      var cut := mode == DoctypeMode && |a| == limit + 1 && index + 2 == limit && !s.comment && !s.pi && s.quote == 0
                 && (a[limit - 1] == OPEN || a[limit - 1] == GT);
      Report(LoopRun(mode, a + more, limit, index, s), |a + more|, limit) == Fail(LimitExceeded, limit) <==> !cut
  {
    var b := a + more;
    if index == |a| {
      PastLimit(mode, b, limit, index, s);
    } else {
      assert b[index] == a[index] && index < limit;
      if s.comment || mode != DoctypeMode || a[index] != LT || s.quote != 0 || s.pi || index == 0 {
        WaitElsewhere(mode, a, more, limit, index, s);
      } else {
        WaitAtMarkup(a, more, limit, index, s);
      }
    }
  }

  lemma WaitElsewhere(mode: Mode, a: seq<Byte>, more: seq<Byte>, limit: nat, index: nat, s: State)
    requires more != [] && index < limit < |a| && LoopStep(mode, a, limit, index, s) == Wait
    requires s.comment || mode != DoctypeMode || a[index] != LT || s.quote != 0 || s.pi || index == 0
    ensures Report(LoopRun(mode, a + more, limit, index, s), |a + more|, limit) == Fail(LimitExceeded, limit)
  {
    var b := a + more;
    assert b[index] == a[index];
    var step := LoopStep(mode, b, limit, index, s);
    if step.Advance? {
      AdvanceWithin(mode, b, limit, index, s);
      PastLimit(mode, b, limit, step.index, step.state);
    }
  }

  lemma WaitAtMarkup(a: seq<Byte>, more: seq<Byte>, limit: nat, index: nat, s: State)
    requires more != [] && 0 < index < limit < |a| && LoopStep(DoctypeMode, a, limit, index, s) == Wait
    requires !s.comment && !s.pi && s.quote == 0 && a[index] == LT && s.brackets == 0
    ensures
      var cut := |a| == limit + 1 && index + 2 == limit && (a[limit - 1] == OPEN || a[limit - 1] == GT);
      Report(LoopRun(DoctypeMode, a + more, limit, index, s), |a + more|, limit) == Fail(LimitExceeded, limit) <==> !cut
  {
    var b := a + more;
    assert b[index] == a[index] && b[index + 1] == a[index + 1];
    var step := LoopStep(DoctypeMode, b, limit, index, s);
    if step.Advance? {
      AdvanceWithin(DoctypeMode, b, limit, index, s);
      if step.index >= limit {
        PastLimit(DoctypeMode, b, limit, step.index, step.state);
        NotCut(a, more, limit, index, s);
      } else {
        SecondByte(a, more, limit, index, s);
      }
    }
  }

  /** When the wait resolves past the limit, the byte after `<` was not a decisive one. */
  lemma NotCut(a: seq<Byte>, more: seq<Byte>, limit: nat, index: nat, s: State)
    requires more != [] && 0 < index < limit < |a| && LoopStep(DoctypeMode, a, limit, index, s) == Wait
    requires !s.comment && !s.pi && s.quote == 0 && a[index] == LT
    requires
      var step := LoopStep(DoctypeMode, a + more, limit, index, s);
      step.Advance? && step.index >= limit
    ensures index + 2 == limit ==> a[limit - 1] != OPEN && a[limit - 1] != GT
  {
    var b := a + more;
    if OccursAt(b, COMMENT_OPEN, index) { assert b[index..index + 4][1] == b[index + 1] == a[index + 1]; }
    if OccursAt(b, PI_OPEN, index) { assert b[index..index + 2][1] == b[index + 1] == a[index + 1]; }
  }

  lemma SecondByte(a: seq<Byte>, more: seq<Byte>, limit: nat, index: nat, s: State)
    requires more != [] && 0 < index < limit < |a| && LoopStep(DoctypeMode, a, limit, index, s) == Wait
    requires !s.comment && !s.pi && s.quote == 0 && a[index] == LT && s.brackets == 0
    requires
      var step := LoopStep(DoctypeMode, a + more, limit, index, s);
      step.Advance? && step.index < limit
    ensures
      var cut := |a| == limit + 1 && index + 2 == limit && (a[limit - 1] == OPEN || a[limit - 1] == GT);
      Report(LoopRun(DoctypeMode, a + more, limit, index, s), |a + more|, limit) == Fail(LimitExceeded, limit) <==> !cut
  {
    var b := a + more;
    var step := LoopStep(DoctypeMode, b, limit, index, s);
    // Only two bytes fit below the limit, and the opener was not recognized.
    assert |a| == index + 3 && limit == index + 2;
    assert !OccursAt(b, PI_OPEN, index) by {
      if OccursAt(b, PI_OPEN, index) { OccursStable(a, more, PI_OPEN, index); }
    }
    assert step == Advance(index + 1, s);
    assert b[index + 1] == a[limit - 1];
    var second := LoopStep(DoctypeMode, b, limit, index + 1, s);
    assert LoopRun(DoctypeMode, b, limit, index, s) == LoopRun(DoctypeMode, b, limit, index + 1, s);
    if second.Advance? {
      AdvanceWithin(DoctypeMode, b, limit, index + 1, s);
      PastLimit(DoctypeMode, b, limit, second.index, second.state);
    }
  }

  /** Bytes without a meaning of their own are passed over. */
  lemma {:induction false} PassedOver(mode: Mode, bytes: seq<Byte>, limit: nat, from: nat, until: nat)
    requires from <= until <= |bytes| && until <= limit
    requires forall i: nat | from <= i < until ::
      && bytes[i] !in [APOS, QUOTE, PERCENT, OPEN, CLOSE, GT] && (bytes[i] == LT ==> i == 0)
    ensures LoopRun(mode, bytes, limit, from, START) == LoopRun(mode, bytes, limit, until, START)
    decreases until - from
  {
    if from < until {
      assert bytes[from] !in [APOS, QUOTE, PERCENT, OPEN, CLOSE, GT];
      assert LoopStep(mode, bytes, limit, from, START) == Advance(from + 1, START);
      PassedOver(mode, bytes, limit, from + 1, until);
    }
  }

  const DOCTYPE_OPEN: seq<Byte> := [LT, BANG, 0x44, 0x4F, 0x43, 0x54, 0x59, 0x50, 0x45]

  /** The cut happens: `<!DOCTYPE a<[>>` is accepted up to its `[` when it arrives whole, and rejected
      when its last byte arrives alone. */
  lemma CutExample()
    ensures
      var a := DOCTYPE_OPEN + [0x20, 0x61, LT, OPEN, GT];
      && LoopScan(DoctypeMode, a, 13) == Fail(LimitExceeded, 13)
      && LoopScan(DoctypeMode, a + [GT], 13) == End(13)
      && CutByLimit(DoctypeMode, a, 13)
  {
    var a := DOCTYPE_OPEN + [0x20, 0x61, LT, OPEN, GT];
    var b := a + [GT];
    PassedOver(DoctypeMode, a, 13, 0, 11);
    PassedOver(DoctypeMode, b, 13, 0, 11);
    assert a[11..13] == [LT, OPEN] && b[11..13] == [LT, OPEN] && b[11..15] == [LT, OPEN, GT, GT];
    assert LoopStep(DoctypeMode, a, 13, 11, START) == Wait;
    assert LoopStep(DoctypeMode, b, 13, 11, START) == Advance(12, START);
    assert LoopStep(DoctypeMode, b, 13, 12, START) == Halt(End(13));
    assert LoopRun(DoctypeMode, b, 13, 12, START) == Decided(End(13));
  }
}
