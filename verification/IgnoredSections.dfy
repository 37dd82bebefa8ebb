/** Ignored conditional sections (dtd.rs): a balanced scan that resumes after every feed. */
module IgnoredSections {
  import opened Unicode
  import opened Wrappers
  import opened Chunks
  import opened Errors
  import opened Names

  // ------------------------------------------------------------------- pieces

  /** Production [64] of XML 1.0, read from left to right without overlaps. */
  datatype Piece = Opens | Closes | Other(c: char)

  function Size(p: Piece): nat { if p.Other? then Width(p.c) else 3 }

  function Chars(p: Piece): nat { if p.Other? then 1 else 3 }

  function First(text: string): Piece
    requires text != ""
  {
    if Starts(text, "<![") then Opens else if Starts(text, "]]>") then Closes else Other(text[0])
  }

  function Pieces(text: string): seq<Piece> {
    if text == "" then [] else [First(text)] + Pieces(text[Chars(First(text))..])
  }

  function Bytes(pieces: seq<Piece>): nat {
    if pieces == [] then 0 else Size(pieces[0]) + Bytes(pieces[1..])
  }

  /** How many sections more were opened than closed. */
  function Balance(pieces: seq<Piece>): int {
    if pieces == [] then 0
    else (if pieces[0].Opens? then 1 else if pieces[0].Closes? then -1 else 0) + Balance(pieces[1..])
  }

  datatype Limits = Limits(included: nat, maxDepth: nat, maxBytes: nat)

  /** Where a section ends, where it is refused, or how far it is open. */
  datatype Outcome = Closed(at: nat) | Failed(kind: ErrorKind, at: nat) | Running(depth: nat, bytes: nat)

  /** A piece that may not be read. */
  function Refusal(limits: Limits, p: Piece, depth: nat, bytes: nat): Option<ErrorKind> {
    if p.Opens? && depth + limits.included >= limits.maxDepth then Some(LimitExceeded)
    else if p.Other? && !IsXmlChar(p.c) then Some(InvalidToken)
    else if bytes + Size(p) > limits.maxBytes then Some(LimitExceeded)
    else None
  }

  function Deeper(p: Piece, depth: nat): (d: nat)
    requires depth > 0
  {
    if p.Opens? then depth + 1 else if p.Closes? then depth - 1 else depth
  }

  function Scan(limits: Limits, pieces: seq<Piece>, depth: nat, bytes: nat): Outcome
    requires depth > 0
  {
    if pieces == [] then Running(depth, bytes)
    else
      match Refusal(limits, pieces[0], depth, bytes)
      case Some(kind) => Failed(kind, bytes)
      case None =>
        var deeper, at := Deeper(pieces[0], depth), bytes + Size(pieces[0]);
        if deeper == 0 then Closed(at) else Scan(limits, pieces[1..], deeper, at)
  }

  // ----------------------------------------------------------- the balancing end

  /** The first `k` pieces may be read and leave the section open before each of them. */
  predicate Readable(limits: Limits, pieces: seq<Piece>, depth: nat, bytes: nat, k: nat)
    requires k <= |pieces|
  {
    forall j: nat | j < k ::
      var level := depth + Balance(pieces[..j]);
      level > 0 && Refusal(limits, pieces[j], level, bytes + Bytes(pieces[..j])).None?
  }

  predicate Balances(limits: Limits, pieces: seq<Piece>, depth: nat, bytes: nat, at: nat, k: nat)
    requires k <= |pieces|
  {
    && Readable(limits, pieces, depth, bytes, k) && depth + Balance(pieces[..k]) == 0
    && at == bytes + Bytes(pieces[..k])
  }

  /** Levels and offsets seen from behind the first piece. */
  lemma Behind(pieces: seq<Piece>, depth: nat, j: nat)
    requires depth > 0 && 1 <= j <= |pieces|
    ensures depth + Balance(pieces[..j]) == Deeper(pieces[0], depth) + Balance(pieces[1..][..j - 1])
    ensures Bytes(pieces[..j]) == Size(pieces[0]) + Bytes(pieces[1..][..j - 1])
  {
    hide Size;
    assert pieces[..j][1..] == pieces[1..][..j - 1];
  }

  lemma ReadableNext(limits: Limits, pieces: seq<Piece>, depth: nat, bytes: nat, k: nat)
    requires depth > 0 && 1 <= k <= |pieces|
    ensures
      var deeper, next := Deeper(pieces[0], depth), bytes + Size(pieces[0]);
      Readable(limits, pieces, depth, bytes, k) <==>
        && Refusal(limits, pieces[0], depth, bytes).None? && (k > 1 ==> deeper > 0)
        && Readable(limits, pieces[1..], deeper, next, k - 1)
  {
    hide Refusal, Size, Deeper, Balance, Bytes;
    var rest, deeper, next := pieces[1..], Deeper(pieces[0], depth), bytes + Size(pieces[0]);
    NothingRead();
    assert pieces[..0] == [] && rest[..0] == [];
    if Readable(limits, pieces, depth, bytes, k) {
      assert depth + Balance(pieces[..0]) > 0;
      forall j: nat | j < k - 1
        ensures deeper + Balance(rest[..j]) > 0
        ensures Refusal(limits, rest[j], deeper + Balance(rest[..j]), next + Bytes(rest[..j])).None?
      {
        Behind(pieces, depth, j + 1);
        assert rest[j] == pieces[j + 1] && depth + Balance(pieces[..j + 1]) > 0;
      }
      if k > 1 { Behind(pieces, depth, 1); assert depth + Balance(pieces[..1]) > 0; }
    }
    if Refusal(limits, pieces[0], depth, bytes).None? && Readable(limits, rest, deeper, next, k - 1) {
      forall j: nat | j < k && (k > 1 ==> deeper > 0)
        ensures depth + Balance(pieces[..j]) > 0
        ensures Refusal(limits, pieces[j], depth + Balance(pieces[..j]), bytes + Bytes(pieces[..j])).None?
      {
        if j > 0 {
          Behind(pieces, depth, j);
          assert rest[j - 1] == pieces[j] && deeper + Balance(rest[..j - 1]) > 0;
        }
      }
    }
  }

  lemma NothingRead()
    ensures Balance([]) == 0 && Bytes([]) == 0
  {}

  lemma BalancesNext(limits: Limits, pieces: seq<Piece>, depth: nat, bytes: nat, at: nat, k: nat)
    requires depth > 0 && 1 <= k <= |pieces|
    ensures
      var deeper, next := Deeper(pieces[0], depth), bytes + Size(pieces[0]);
      Balances(limits, pieces, depth, bytes, at, k) <==>
        Refusal(limits, pieces[0], depth, bytes).None?
        && if deeper == 0 then k == 1 && at == next else Balances(limits, pieces[1..], deeper, next, at, k - 1)
  {
    hide Refusal, Size, Deeper, Balance, Bytes, Readable;
    ReadableNext(limits, pieces, depth, bytes, k);
    Behind(pieces, depth, k);
    if k == 1 {
      NothingRead();
      assert pieces[1..][..0] == [];
      NothingUnreadable(limits, pieces[1..], Deeper(pieces[0], depth), bytes + Size(pieces[0]));
    }
  }

  lemma NothingUnreadable(limits: Limits, pieces: seq<Piece>, depth: nat, bytes: nat)
    ensures Readable(limits, pieces, depth, bytes, 0)
  {}

  /** A section closes at exactly the `]]>` that balances it, whenever everything before may be read. */
  lemma {:induction false} ClosesAtBalance(limits: Limits, pieces: seq<Piece>, depth: nat, bytes: nat, at: nat)
    requires depth > 0
    ensures Scan(limits, pieces, depth, bytes) == Closed(at) <==>
      exists k: nat | k <= |pieces| :: Balances(limits, pieces, depth, bytes, at, k)
    decreases |pieces|
  {
    hide Refusal, Balances;
    NeverEmpty(limits, pieces, depth, bytes, at);
    forall k: nat | 1 <= k <= |pieces|
      ensures Balances(limits, pieces, depth, bytes, at, k) <==>
        Refusal(limits, pieces[0], depth, bytes).None?
        && if Deeper(pieces[0], depth) == 0 then k == 1 && at == bytes + Size(pieces[0])
           else Balances(limits, pieces[1..], Deeper(pieces[0], depth), bytes + Size(pieces[0]), at, k - 1)
    {
      BalancesNext(limits, pieces, depth, bytes, at, k);
    }
    if pieces != [] && Deeper(pieces[0], depth) > 0 {
      var deeper, next := Deeper(pieces[0], depth), bytes + Size(pieces[0]);
      ClosesAtBalance(limits, pieces[1..], deeper, next, at);
      if k: nat :| k <= |pieces[1..]| && Balances(limits, pieces[1..], deeper, next, at, k) {
        assert Refusal(limits, pieces[0], depth, bytes).None? ==> Balances(limits, pieces, depth, bytes, at, k + 1);
      }
    } else if pieces != [] {
      assert Refusal(limits, pieces[0], depth, bytes).None? && at == bytes + Size(pieces[0]) ==>
        Balances(limits, pieces, depth, bytes, at, 1);
    }
  }

  lemma NeverEmpty(limits: Limits, pieces: seq<Piece>, depth: nat, bytes: nat, at: nat)
    requires depth > 0
    ensures !Balances(limits, pieces, depth, bytes, at, 0)
  {}

  // ----------------------------------------------------------------- resumption

  /** A text that may be the start of a delimiter has to wait for more. */
  predicate Held(text: string) {
    text != "" && (Starts("<![", text) || Starts("]]>", text)) && |text| < 3
  }

  /** A piece that is not held is the same whatever follows. */
  lemma FirstStable(text: string, more: string)
    requires text != "" && (more == "" || !Held(text))
    ensures
      var p := First(text);
      First(text + more) == p && Chars(p) <= |text|
      && Pieces(text + more) == [p] + Pieces(text[Chars(p)..] + more)
      && (p.Other? ==> p.c == text[0]) && Size(p) == Len(text[..Chars(p)])
      && p.Opens? == Starts(text, "<![") && (!p.Opens? ==> p.Closes? == Starts(text, "]]>"))
      && Size(p) == if p.Other? then Width(text[0]) else 3
  {
    hide Width, Len;
    var p, whole := First(text), text + more;
    assert text + "" == text;
    assert whole[0] == text[0];
    assert |text| >= 2 ==> whole[1] == text[1];
    assert |text| >= 3 ==> whole[2] == text[2];
    DelimiterSize(text[0]);
    if p.Other? {
      assert text[..1] == [text[0]];
      if |text| >= 3 {
        assert Starts(whole, "<![") ==> Starts(text, "<![");
        assert Starts(whole, "]]>") ==> Starts(text, "]]>");
      } else if more != "" {
        assert Starts(whole, "<![") ==> Starts("<![", text);
        assert Starts(whole, "]]>") ==> Starts("]]>", text);
      }
    } else {
      assert text[..3] == whole[..3] == if p.Opens? then "<![" else "]]>";
    }
    assert whole[Chars(p)..] == text[Chars(p)..] + more;
  }

  lemma DelimiterSize(c: char)
    ensures Len("<![") == 3 && Len("]]>") == 3 && Len([c]) == Width(c)
  {
    AsciiLen("<![");
    AsciiLen("]]>");
    assert [c][1..] == "";
  }

  lemma NoBytes()
    ensures Len("") == 0 == Bytes([]) && Balance([]) == 0
  {}

  const YIELD: nat := 65536

  /** The parser's conditional section state, and the input that is left. */
  class Section {
    var remaining: string
    var ignoredDepth: nat
    var ignoredBytes: nat
    const limits: Limits

    constructor (limits: Limits)
      ensures remaining == "" && ignoredDepth == 1 && ignoredBytes == 0 && this.limits == limits
    {
      remaining, ignoredDepth, ignoredBytes, this.limits := "", 1, 0, limits;
    }

    /** What the whole section amounts to when `more` input follows. */
    ghost function Ahead(more: string): Outcome
      reads this
    {
      if ignoredDepth == 0 then Closed(ignoredBytes)
      else Scan(limits, Pieces(remaining + more), ignoredDepth, ignoredBytes)
    }

    /** `parse_ignored_section`: read on, up to the end, a refusal, held input, or the yield bound.
        The state changes only when something was read. */
    method ParseIgnoredSection(final: bool, ghost more: string)
      returns (result: Result<bool, (ErrorKind, nat)>, ghost k: nat, ghost read: seq<Piece>)
      requires ignoredDepth > 0 && (final ==> more == "")
      modifies this
      ensures result != Success(true) ==> unchanged(this)
      ensures result.Failure? ==> Ahead(more) == Failed(result.error.0, ignoredBytes + result.error.1)
      ensures result == Success(false) ==> remaining == "" || (!final && Held(remaining))
      ensures result == Success(true) ==>
        ignoredDepth == 0 || remaining == "" || (!final && Held(remaining)) || ignoredBytes - old(ignoredBytes) >= YIELD
      ensures result == Success(true) ==>
        && 0 < k <= |old(remaining)| && remaining == old(remaining)[k..] && ignoredBytes >= old(ignoredBytes)
        && Progress(limits, old(remaining), more, old(ignoredDepth), old(ignoredBytes), old(Ahead(more)),
                    k, read, ignoredDepth, ignoredBytes - old(ignoredBytes))
    {
      hide Refusal, Held, Width, Scan, Pieces, Len, Balance, Bytes, First, Starts, IsXmlChar, Progress;
      var text, depth := remaining, ignoredDepth;
      var at: nat, offset: nat := 0, 0;
      ghost var whole := Ahead(more);
      read := [];
      NoProgress(limits, text, more, ignoredDepth, ignoredBytes);
      while at < |text|
        invariant unchanged(this) && depth > 0 && (at == 0 <==> offset == 0)
        invariant Progress(limits, text, more, ignoredDepth, ignoredBytes, whole, at, read, depth, offset)
        invariant at <= |text|
      {
        var rest := text[at..];
        if !final && Held(rest) {
          break;
        }
        ghost var p := Step(limits, text, more, ignoredDepth, ignoredBytes, whole, at, read, depth, offset);
        var width, bytes := 3, 3;
        if Starts(rest, "<![") {
          if depth + limits.included >= limits.maxDepth {
            return Failure((LimitExceeded, offset)), at, read;
          }
          depth := depth + 1;
        } else if Starts(rest, "]]>") {
          depth := depth - 1;
        } else {
          if !IsXmlChar(rest[0]) {
            return Failure((InvalidToken, offset)), at, read;
          }
          width, bytes := 1, Width(rest[0]);
        }
        if ignoredBytes + offset + bytes > limits.maxBytes {
          return Failure((LimitExceeded, offset)), at, read;
        }
        at, offset, read := at + width, offset + bytes, read + [p];
        if depth == 0 || offset >= YIELD {
          break;
        }
      }
      if offset == 0 {
        return Success(false), at, read;
      }
      ignoredDepth, ignoredBytes, remaining := depth, ignoredBytes + offset, text[at..];
      result, k := Success(true), at;
    }
  }

  /** What was read of a text, and what the section still amounts to. */
  ghost predicate Progress(limits: Limits, text: string, more: string, depth0: nat, bytes0: nat, whole: Outcome,
                           k: nat, read: seq<Piece>, depth: nat, offset: nat) {
    && k <= |text| && (k == 0 <==> read == []) && Pieces(text + more) == read + Pieces(text[k..] + more)
    && depth == depth0 + Balance(read) && offset == Bytes(read) == Len(text[..k])
    && whole == if depth == 0 then Closed(bytes0 + offset)
                else Scan(limits, Pieces(text[k..] + more), depth, bytes0 + offset)
  }

  lemma NoProgress(limits: Limits, text: string, more: string, depth: nat, bytes: nat)
    requires depth > 0
    ensures Progress(limits, text, more, depth, bytes, Scan(limits, Pieces(text + more), depth, bytes), 0, [], depth, 0)
  {
    NoBytes();
    assert text[0..] == text && text[..0] == "";
  }

  lemma Progressed(limits: Limits, text: string, more: string, depth0: nat, bytes0: nat, whole: Outcome,
                   k: nat, read: seq<Piece>, depth: nat, offset: nat)
    requires Progress(limits, text, more, depth0, bytes0, whole, k, read, depth, offset)
    ensures k <= |text| && (k == 0 <==> read == []) && Pieces(text + more) == read + Pieces(text[k..] + more)
    ensures depth == depth0 + Balance(read) && offset == Bytes(read) == Len(text[..k])
    ensures |text| - |text[k..]| == k
    ensures whole == if depth == 0 then Closed(bytes0 + offset)
                     else Scan(limits, Pieces(text[k..] + more), depth, bytes0 + offset)
  {}

  /** The next piece is refused, or read as the code reads it. */
  lemma Step(limits: Limits, text: string, more: string, depth0: nat, bytes0: nat, whole: Outcome,
             k: nat, read: seq<Piece>, depth: nat, offset: nat)
    returns (p: Piece)
    requires Progress(limits, text, more, depth0, bytes0, whole, k, read, depth, offset)
    requires depth > 0 && k < |text| && (more == "" || !Held(text[k..]))
    ensures
      var rest := text[k..];
      var opens, closes := Starts(rest, "<!["), !Starts(rest, "<![") && Starts(rest, "]]>");
      var width, bytes := if opens || closes then 3 else 1, if opens || closes then 3 else Width(rest[0]);
      var deeper := if opens then depth + 1 else if closes then depth - 1 else depth;
      var at := bytes0 + offset;
      if opens && depth + limits.included >= limits.maxDepth then whole == Failed(LimitExceeded, at)
      else if !opens && !closes && !IsXmlChar(rest[0]) then whole == Failed(InvalidToken, at)
      else if at + bytes > limits.maxBytes then whole == Failed(LimitExceeded, at)
      else
        k + width <= |text|
        && Progress(limits, text, more, depth0, bytes0, whole, k + width, read + [p], deeper, offset + bytes)
  {
    hide Width, Scan, Pieces, Len, Balance, Bytes, First, Starts, IsXmlChar, Held;
    var rest := text[k..];
    p := First(rest);
    FirstStable(rest, more);
    var later := Pieces(rest[Chars(p)..] + more);
    ScanNext(limits, p, later, depth, bytes0 + offset);
    ReadNext(read, p, later);
    var width := Chars(p);
    assert rest[width..] == text[k + width..] && rest[..width] == text[k..k + width];
    OffsetsIncrease(text, k, k + width);
  }

  lemma ScanNext(limits: Limits, p: Piece, rest: seq<Piece>, depth: nat, bytes: nat)
    requires depth > 0
    ensures Size(p) > 0
    ensures
      var refusal := Refusal(limits, p, depth, bytes);
      Scan(limits, [p] + rest, depth, bytes)
        == if refusal.Some? then Failed(refusal.value, bytes)
           else if Deeper(p, depth) == 0 then Closed(bytes + Size(p))
           else Scan(limits, rest, Deeper(p, depth), bytes + Size(p))
    ensures Refusal(limits, p, depth, bytes)
         == if p.Opens? && depth + limits.included >= limits.maxDepth then Some(LimitExceeded)
            else if p.Other? && !IsXmlChar(p.c) then Some(InvalidToken)
            else if bytes + Size(p) > limits.maxBytes then Some(LimitExceeded)
            else None
  {
    assert ([p] + rest)[1..] == rest;
  }

  lemma {:induction false} ReadNext(read: seq<Piece>, p: Piece, rest: seq<Piece>)
    ensures read + ([p] + rest) == (read + [p]) + rest
    ensures Balance(read + [p]) == Balance(read) + (if p.Opens? then 1 else if p.Closes? then -1 else 0)
    ensures Bytes(read + [p]) == Bytes(read) + Size(p)
  {
    if read != [] {
      assert (read + [p])[1..] == read[1..] + [p];
      ReadNext(read[1..], p, rest);
    }
  }

  // ------------------------------------------------------------- whole sessions

  /** Feed the input in any chunks, the last one final, and read on after each feed. The section
      ends, or is refused, where one scan of the whole input says. */
  method ReadSection(limits: Limits, chunks: seq<string>) returns (result: Outcome)
    ensures result == Scan(limits, Pieces(Join(chunks)), 1, 0)
  {
    hide Scan, Pieces, Held;
    var section := new Section(limits);
    var i := 0;
    ghost var whole := Scan(limits, Pieces(Join(chunks)), 1, 0);
    assert "" + Join(chunks) == Join(chunks) && chunks[0..] == chunks;
    while i <= |chunks|
      invariant i <= |chunks| + 1 && fresh(section) && section.limits == limits && section.ignoredDepth > 0
      invariant i <= |chunks| ==> section.Ahead(Join(chunks[i..])) == whole
      invariant i > |chunks| ==> section.remaining == "" && section.Ahead("") == whole
      decreases |chunks| + 1 - i
    {
      ghost var more := "";
      var final := i == |chunks|;
      if !final {
        more := Join(chunks[i + 1..]);
        JoinFirst(chunks[i..]);
        assert chunks[i..][1..] == chunks[i + 1..];
        Unicode.Associative(section.remaining, chunks[i], more);
        section.remaining := section.remaining + chunks[i];
      } else {
        assert chunks[i..] == [];
      }
      var moving := true;
      while moving
        invariant fresh(section) && section.limits == limits && section.ignoredDepth > 0
        invariant section.Ahead(more) == whole
        invariant !moving && final ==> section.remaining == ""
        decreases moving, |section.remaining|
      {
        ghost var text, depth, bytes := section.remaining, section.ignoredDepth, section.ignoredBytes;
        var step, k, read := section.ParseIgnoredSection(final, more);
        if step.Failure? {
          return Failed(step.error.0, section.ignoredBytes + step.error.1);
        }
        if step.value {
          Progressed(limits, text, more, depth, bytes, whole, k, read, section.ignoredDepth, section.ignoredBytes - bytes);
        }
        if section.ignoredDepth == 0 {
          return Closed(section.ignoredBytes);
        }
        moving := step.value;
      }
      i := i + 1;
    }
    Nothing(limits, section.ignoredDepth, section.ignoredBytes);
    assert "" + "" == "";
    result := Running(section.ignoredDepth, section.ignoredBytes);
  }

  lemma Nothing(limits: Limits, depth: nat, bytes: nat)
    requires depth > 0
    ensures Scan(limits, Pieces(""), depth, bytes) == Running(depth, bytes)
  {}
}
