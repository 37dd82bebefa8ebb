/** What the token scans report, said by the shape of the text alone: no state, no steps (encoding.rs). */
module TokenShapes {
  import opened Unicode
  import opened Errors
  import opened Names
  import opened Scanners
  import opened MarkupScan
  import opened ScanClass
  import References

  // --------------------------------------------------- comments and instructions

  /** A comment ends behind the first `-->` that does not share a byte with its opening `<!--`. */
  predicate CommentEnds(bytes: seq<Byte>, e: nat) {
    && 7 <= e <= |bytes|
    && bytes[e - 3] == '-' as int && bytes[e - 2] == '-' as int && bytes[e - 1] == '>' as int
  }

  /** An instruction ends behind the first `?>` that does not share a byte with its opening `<?`. */
  predicate InstructionEnds(bytes: seq<Byte>, e: nat) {
    4 <= e <= |bytes| && bytes[e - 2] == '?' as int && bytes[e - 1] == '>' as int
  }

  lemma CommentOccurs(bytes: seq<Byte>, i: nat)
    ensures i >= 4 ==> (OccursAt(bytes, COMMENT_END, i) <==> CommentEnds(bytes, i + 3))
    ensures i >= 2 ==> (OccursAt(bytes, PI_END, i) <==> InstructionEnds(bytes, i + 2))
  {
    if i + 3 <= |bytes| { assert bytes[i..i + 3] == [bytes[i], bytes[i + 1], bytes[i + 2]]; }
    if i + 2 <= |bytes| { assert bytes[i..i + 2] == [bytes[i], bytes[i + 1]]; }
  }

  lemma CommentExactly(rules: NameRules, text: string, limit: nat)
    ensures
      var bytes, report := Utf8(text), Token(CommentMode, rules, text, limit);
      && (forall e: nat :: report == End(e) <==>
           e <= limit && CommentEnds(bytes, e) && forall d: nat | d < e :: !CommentEnds(bytes, d))
      && (report == Incomplete <==> |bytes| <= limit && forall e: nat :: !CommentEnds(bytes, e))
      && (report.Fail? ==> report == Fail(LimitExceeded, limit))
  {
    hide OccursAt, CommentEnds, Utf8;
    var bytes := Utf8(text);
    forall i: nat ensures i >= 4 ==> (OccursAt(bytes, COMMENT_END, i) <==> CommentEnds(bytes, i + 3)) {
      CommentOccurs(bytes, i);
    }
    forall e: nat | CommentEnds(bytes, e) ensures 7 <= e <= |bytes| && OccursAt(bytes, COMMENT_END, e - 3) {
      EndsWithin(bytes, e);
    }
  }

  lemma EndsWithin(bytes: seq<Byte>, e: nat)
    ensures CommentEnds(bytes, e) ==> 7 <= e <= |bytes|
    ensures InstructionEnds(bytes, e) ==> 4 <= e <= |bytes|
  {}

  lemma InstructionExactly(rules: NameRules, text: string, limit: nat)
    ensures
      var bytes, report := Utf8(text), Token(PiMode, rules, text, limit);
      && (forall e: nat :: report == End(e) <==>
           e <= limit && InstructionEnds(bytes, e) && forall d: nat | d < e :: !InstructionEnds(bytes, d))
      && (report == Incomplete <==> |bytes| <= limit && forall e: nat :: !InstructionEnds(bytes, e))
      && (report.Fail? ==> report == Fail(LimitExceeded, limit))
  {
    hide OccursAt, InstructionEnds, Utf8;
    var bytes := Utf8(text);
    forall i: nat ensures i >= 2 ==> (OccursAt(bytes, PI_END, i) <==> InstructionEnds(bytes, i + 2)) {
      CommentOccurs(bytes, i);
    }
    forall e: nat | InstructionEnds(bytes, e) ensures 4 <= e <= |bytes| && OccursAt(bytes, PI_END, e - 2) {
      EndsWithin(bytes, e);
    }
  }

  // ------------------------------------------------------------------ start tags

  /** A piece of a start tag: a byte outside quotes, or a quoted value. */
  datatype Part = Bare(b: Byte) | Quoted(quote: Byte, body: seq<Byte>)

  predicate IsQuote(b: Byte) { b == '"' as int || b == '\'' as int }

  /** No `<` anywhere; `>` only in quotes; a value does not hold its own quote. */
  predicate LegalPart(part: Part) {
    match part
    case Bare(b) => b != '<' as int && b != '>' as int && !IsQuote(b)
    case Quoted(quote, body) => IsQuote(quote) && LegalBody(quote, body)
  }

  predicate LegalBody(quote: Byte, body: seq<Byte>) { quote !in body && '<' as int !in body }

  predicate LegalParts(parts: seq<Part>) { forall i: nat | i < |parts| :: LegalPart(parts[i]) }

  function PrintPart(part: Part): seq<Byte> {
    match part
    case Bare(b) => [b]
    case Quoted(quote, body) => [quote] + body + [quote]
  }

  function PrintParts(parts: seq<Part>): seq<Byte> {
    if parts == [] then [] else PrintParts(parts[..|parts| - 1]) + PrintPart(parts[|parts| - 1])
  }

  /** A value that is not closed yet: its quote and what is there of it. */
  function PrintOpen(quote: Byte, body: seq<Byte>): seq<Byte> { if quote == 0 then [] else [quote] + body }

  predicate LegalOpen(quote: Byte, body: seq<Byte>) {
    if quote == 0 then body == [] else IsQuote(quote) && LegalBody(quote, body)
  }

  /** A start tag up to some place: whole pieces, and perhaps an open value. */
  ghost predicate IsTagBeginning(bytes: seq<Byte>) {
    exists parts, quote: Byte, body :: LegalParts(parts) && LegalOpen(quote, body)
      && bytes == PrintParts(parts) + PrintOpen(quote, body)
  }

  /** A start tag behind its `<`: whole pieces, then `>`. */
  ghost predicate IsTag(bytes: seq<Byte>) {
    exists parts :: LegalParts(parts) && bytes == PrintParts(parts) + ['>' as int]
  }

  lemma PartsNext(parts: seq<Part>, part: Part)
    requires LegalParts(parts) && LegalPart(part)
    ensures LegalParts(parts + [part]) && PrintParts(parts + [part]) == PrintParts(parts) + PrintPart(part)
  {
    assert (parts + [part])[..|parts|] == parts;
  }

  /** Where the automaton gets to, in pieces; its state is the open quote. */
  lemma {:induction false} RunParts(limit: nat, s: seq<Byte>) returns (parts: seq<Part>, body: seq<Byte>)
    requires Run(ElementStep(limit), ByteWidth(), s, 1, 0).Ended?
    ensures
      var quote := Run(ElementStep(limit), ByteWidth(), s, 1, 0).state;
      && LegalParts(parts) && LegalOpen(quote, body) && s == PrintParts(parts) + PrintOpen(quote, body)
      && (s != [] ==> |s| <= limit - 1)
  {
    var step := ElementStep(limit);
    if s == [] {
      RunNothing(step, ByteWidth(), 1, 0);
      parts, body := [], [];
    } else {
      hide Run;
      var n := |s| - 1;
      assert s == s[..n] + [s[n]];
      RunConcat(step, ByteWidth(), s[..n], [s[n]], 1, 0);
      var before := Run(step, ByteWidth(), s[..n], 1, 0);
      RunBytes(step, s[..n], 1, 0);
      RunOne(step, ByteWidth(), s[n], before.index, before.state);
      parts, body := RunParts(limit, s[..n]);
      parts, body := AddByte(parts, before.state, body, s[n]);
    }
  }

  lemma AddByte(parts: seq<Part>, quote: Byte, body: seq<Byte>, b: Byte) returns (all: seq<Part>, open: seq<Byte>)
    requires LegalParts(parts) && LegalOpen(quote, body) && b != '<' as int && !(quote == 0 && b == '>' as int)
    ensures
      var next := if quote != 0 then if b == quote then 0 else quote else if IsQuote(b) then b else 0;
      && LegalParts(all) && LegalOpen(next, open)
      && PrintParts(all) + PrintOpen(next, open) == PrintParts(parts) + PrintOpen(quote, body) + [b]
  {
    hide PrintParts;
    all, open := parts, [];
    if quote == 0 {
      if !IsQuote(b) {
        PartsNext(parts, Bare(b));
        all := parts + [Bare(b)];
      }
    } else if b == quote {
      PartsNext(parts, Quoted(quote, body));
      all := parts + [Quoted(quote, body)];
    } else {
      open := body + [b];
    }
  }

  lemma PartsLast(parts: seq<Part>)
    requires parts != [] && LegalParts(parts)
    ensures
      var n := |parts| - 1;
      PrintParts(parts) == PrintParts(parts[..n]) + PrintPart(parts[n]) && LegalParts(parts[..n]) && LegalPart(parts[n])
  {}

  /** The automaton passes over whole pieces, and stays in an open one. */
  lemma {:induction false} PartsRun(limit: nat, parts: seq<Part>)
    requires LegalParts(parts) && |PrintParts(parts)| < limit
    ensures Run(ElementStep(limit), ByteWidth(), PrintParts(parts), 1, 0) == Ended(1 + |PrintParts(parts)|, 0)
  {
    var step := ElementStep(limit);
    if parts == [] {
      RunNothing(step, ByteWidth(), 1, 0);
    } else {
      hide Run, PrintParts, LegalParts;
      var n := |parts| - 1;
      var before := PrintParts(parts[..n]);
      PartsLast(parts);
      PartsRun(limit, parts[..n]);
      PartRun(limit, parts[n], 1 + |before|);
      RunConcat(step, ByteWidth(), before, PrintPart(parts[n]), 1, 0);
    }
  }

  lemma PartRun(limit: nat, part: Part, at: nat)
    requires LegalPart(part) && at + |PrintPart(part)| <= limit
    ensures Run(ElementStep(limit), ByteWidth(), PrintPart(part), at, 0) == Ended(at + |PrintPart(part)|, 0)
  {
    hide Run;
    var step := ElementStep(limit);
    match part
    case Bare(b) => RunOne(step, ByteWidth(), b, at, 0);
    case Quoted(quote, body) =>
      OpenRun(limit, quote, body, at);
      assert PrintPart(part) == ([quote] + body) + [quote];
      RunConcat(step, ByteWidth(), [quote] + body, [quote], at, 0);
      RunOne(step, ByteWidth(), quote, at + 1 + |body|, quote);
  }

  lemma {:induction false} OpenRun(limit: nat, quote: Byte, body: seq<Byte>, at: nat)
    requires quote != 0 && LegalOpen(quote, body) && at + 1 + |body| <= limit
    ensures Run(ElementStep(limit), ByteWidth(), [quote] + body, at, 0) == Ended(at + 1 + |body|, quote)
  {
    var step := ElementStep(limit);
    if body == [] {
      assert [quote] + body == [quote];
      RunOne(step, ByteWidth(), quote, at, 0);
    } else {
      var n := |body| - 1;
      assert [quote] + body == ([quote] + body[..n]) + [body[n]] && body[n] in body;
      OpenRun(limit, quote, body[..n], at);
      RunConcat(step, ByteWidth(), [quote] + body[..n], [body[n]], at, 0);
      RunOne(step, ByteWidth(), body[n], at + 1 + n, quote);
    }
  }

  lemma BeginningRun(limit: nat, parts: seq<Part>, quote: Byte, body: seq<Byte>)
    requires LegalParts(parts) && LegalOpen(quote, body)
    requires limit > 0 && 1 + |PrintParts(parts) + PrintOpen(quote, body)| <= limit
    ensures Run(ElementStep(limit), ByteWidth(), PrintParts(parts) + PrintOpen(quote, body), 1, 0)
         == Ended(1 + |PrintParts(parts) + PrintOpen(quote, body)|, quote)
  {
    hide Run, PrintParts;
    var before := PrintParts(parts);
    if quote == 0 {
      assert before + [] == before;
      PartsRun(limit, parts);
    } else {
      PartsRun(limit, parts);
      OpenRun(limit, quote, body, 1 + |before|);
      RunConcat(ElementStep(limit), ByteWidth(), before, PrintOpen(quote, body), 1, 0);
    }
  }

  /** The automaton gets through exactly the beginnings of start tags within the limit. */
  lemma EndedExactly(limit: nat, s: seq<Byte>)
    requires limit > 0
    ensures Run(ElementStep(limit), ByteWidth(), s, 1, 0).Ended? <==> IsTagBeginning(s) && 1 + |s| <= limit
    ensures Run(ElementStep(limit), ByteWidth(), s, 1, 0).Ended? ==>
      Run(ElementStep(limit), ByteWidth(), s, 1, 0).index == 1 + |s|
  {
    hide Run, PrintParts, LegalParts;
    if Run(ElementStep(limit), ByteWidth(), s, 1, 0).Ended? {
      var parts, body := RunParts(limit, s);
      RunBytes(ElementStep(limit), s, 1, 0);
    } else if IsTagBeginning(s) && 1 + |s| <= limit {
      var parts, quote: Byte, body :| LegalParts(parts) && LegalOpen(quote, body)
        && s == PrintParts(parts) + PrintOpen(quote, body);
      BeginningRun(limit, parts, quote, body);
    }
  }

  lemma TagStops(limit: nat, s: seq<Byte>, k: nat)
    requires limit > 0 && k < |s| && IsTagBeginning(s[..k]) && 1 + k <= limit
    ensures s[k] == '<' as int ==>
      Run(ElementStep(limit), ByteWidth(), s, 1, 0) == Stopped(Fail(InvalidToken, 1 + k))
    ensures IsTag(s[..k + 1]) && 1 + k < limit ==>
      Run(ElementStep(limit), ByteWidth(), s, 1, 0) == Stopped(End(2 + k))
  {
    hide Run, PrintParts, IsTagBeginning;
    EndedExactly(limit, s[..k]);
    RunStopsAt(ElementStep(limit), ByteWidth(), s, 1, 0, k);
    if IsTag(s[..k + 1]) && 1 + k < limit {
      var parts :| LegalParts(parts) && s[..k + 1] == PrintParts(parts) + ['>' as int];
      assert s[..k + 1][..k] == s[..k] == PrintParts(parts) && s[..k + 1][k] == '>' as int;
      PartsRun(limit, parts);
    }
  }

  /** Where the automaton stops, by shape. */
  lemma StopsByShape(limit: nat, s: seq<Byte>)
    requires limit > 0 && Run(ElementStep(limit), ByteWidth(), s, 1, 0).Stopped?
    ensures
      match Run(ElementStep(limit), ByteWidth(), s, 1, 0).result
      case Incomplete => false
      case End(e) => 2 <= e <= limit && e - 1 <= |s| && IsTag(s[..e - 1])
      case Fail(kind, at) =>
        1 <= at <= |s| && at <= limit && IsTagBeginning(s[..at - 1])
        && if kind == InvalidToken then s[at - 1] == '<' as int
           else kind == LimitExceeded && at == limit && s[at - 1] != '<' as int
  {
    hide Run, PrintParts, LegalParts, IsTagBeginning;
    var k := RunStops(ElementStep(limit), ByteWidth(), s, 1, 0);
    EndedExactly(limit, s[..k]);
    var result := Run(ElementStep(limit), ByteWidth(), s, 1, 0).result;
    if result.End? {
      var parts, body := RunParts(limit, s[..k]);
      assert PrintParts(parts) + [] == PrintParts(parts);
      assert s[..k + 1] == s[..k] + ['>' as int];
    }
  }

  lemma TagBegins(s: seq<Byte>, k: nat)
    requires k < |s| && IsTag(s[..k + 1])
    ensures IsTagBeginning(s[..k])
  {
    var parts :| LegalParts(parts) && s[..k + 1] == PrintParts(parts) + ['>' as int];
    assert s[..k + 1][..k] == s[..k] == PrintParts(parts);
    assert PrintParts(parts) + PrintOpen(0, []) == s[..k];
  }

  predicate OpensStartTag(text: string) {
    text != "" && text[0] == '<' && (|text| >= 2 ==> text[1] != '/' && text[1] != '!')
  }

  /** A start tag ends at the first `>` outside quotes, is wrong at a `<`, and goes on otherwise. */
  lemma StartTagExactly(rules: NameRules, text: string, limit: nat)
    requires OpensStartTag(text)
    ensures
      var bytes, report := Utf8(text), Token(TagMode, rules, text, limit);
      && bytes != []
      && (forall e: nat :: report == End(e) <==> 2 <= e <= |bytes| && e <= limit && IsTag(bytes[1..e]))
      && (forall at: nat :: report == Fail(InvalidToken, at) <==>
           1 <= at < |bytes| && at <= limit && bytes[at] == '<' as int && IsTagBeginning(bytes[1..at]))
      && (report == Incomplete <==> |bytes| <= limit && IsTagBeginning(bytes[1..]))
      && (report.Fail? ==> report.kind == InvalidToken || report == Fail(LimitExceeded, limit))
  {
    hide Run, IsTag, IsTagBeginning, Utf8;
    NonEmpty(text);
    var bytes := Utf8(text);
    if limit > 0 {
      ElementExactly(limit, bytes);
    }
  }

  lemma ElementExactly(limit: nat, bytes: seq<Byte>)
    requires limit > 0 && bytes != []
    ensures
      var report := ElementTag(bytes, limit);
      && (forall e: nat :: report == End(e) <==> 2 <= e <= |bytes| && e <= limit && IsTag(bytes[1..e]))
      && (forall at: nat :: report == Fail(InvalidToken, at) <==>
           1 <= at < |bytes| && at <= limit && bytes[at] == '<' as int && IsTagBeginning(bytes[1..at]))
      && (report == Incomplete <==> |bytes| <= limit && IsTagBeginning(bytes[1..]))
      && (report.Fail? ==> report.kind == InvalidToken || report == Fail(LimitExceeded, limit))
  {
    hide Run, IsTag, IsTagBeginning;
    var s, ran := bytes[1..], Run(ElementStep(limit), ByteWidth(), bytes[1..], 1, 0);
    EndedExactly(limit, s);
    if ran.Stopped? { StopsByShape(limit, s); }
    forall e: nat | 2 <= e <= |bytes| && e <= limit && IsTag(bytes[1..e]) ensures ran == Stopped(End(e)) {
      assert s[..e - 1] == bytes[1..e];
      TagBegins(s, e - 2);
      TagStops(limit, s, e - 2);
    }
    forall at: nat | 1 <= at < |bytes| && at <= limit && bytes[at] == '<' as int && IsTagBeginning(bytes[1..at])
      ensures ran == Stopped(Fail(InvalidToken, at))
    {
      assert s[..at - 1] == bytes[1..at];
      TagStops(limit, s, at - 1);
    }
    forall e: nat | 1 <= e <= |bytes| ensures bytes[1..e] == s[..e - 1] {}
  }

  // -------------------------------------------------------------------- end tags

  predicate AllName(rules: NameRules, s: string) { forall i: nat | i < |s| :: rules.IsNameChar(s[i]) }

  /** An end tag behind its `</`, up to some place: name characters, then blanks. */
  ghost predicate IsEndBeginning(rules: NameRules, s: string) {
    exists name, blanks :: AllName(rules, name) && Blank(blanks) && s == name + blanks
  }

  lemma NameCharacters(rules: NameRules, c: char)
    requires rules.IsNameChar(c)
    ensures !Whitespace(c) && c != '>' && c != ';' && c != '#' && c != '&'
  {}

  lemma NothingBegins(rules: NameRules)
    ensures IsEndBeginning(rules, "")
  {
    assert AllName(rules, "") && Blank("") && "" == "" + "";
  }

  lemma EndBeginningNext(rules: NameRules, s: string, c: char)
    ensures IsEndBeginning(rules, s + [c]) <==>
      IsEndBeginning(rules, s)
      && (Whitespace(c) || (rules.IsNameChar(c) && (s == "" || !Whitespace(s[|s| - 1]))))
  {
    hide NameRules.IsNameChar, Whitespace;
    if IsEndBeginning(rules, s + [c]) { ShorterBegins(rules, s, c); }
    if IsEndBeginning(rules, s) { LongerBegins(rules, s, c); }
  }

  lemma ShorterBegins(rules: NameRules, s: string, c: char)
    requires IsEndBeginning(rules, s + [c])
    ensures IsEndBeginning(rules, s)
    ensures Whitespace(c) || (rules.IsNameChar(c) && (s == "" || !Whitespace(s[|s| - 1])))
  {
    hide NameRules.IsNameChar, Whitespace;
    var name, blanks :| AllName(rules, name) && Blank(blanks) && s + [c] == name + blanks;
    assert (s + [c])[|s|] == c && (s + [c])[..|s|] == s;
    if blanks != "" {
      var fewer := blanks[..|blanks| - 1];
      assert (name + blanks)[|s|] == blanks[|blanks| - 1];
      assert s == name + fewer && Blank(fewer);
    } else {
      assert name + blanks == name;
      var shorter := name[..|name| - 1];
      assert s == shorter + "" && AllName(rules, shorter) && Blank("");
      if s != "" {
        assert s[|s| - 1] == name[|s| - 1];
        NameCharacters(rules, name[|s| - 1]);
      }
    }
  }

  lemma LongerBegins(rules: NameRules, s: string, c: char)
    requires IsEndBeginning(rules, s)
    ensures Whitespace(c) || (rules.IsNameChar(c) && (s == "" || !Whitespace(s[|s| - 1]))) ==>
      IsEndBeginning(rules, s + [c])
  {
    hide NameRules.IsNameChar, Whitespace;
    var name, blanks :| AllName(rules, name) && Blank(blanks) && s == name + blanks;
    assert s != "" && blanks != "" ==> s[|s| - 1] == blanks[|blanks| - 1];
    if Whitespace(c) {
      assert Blank(blanks + [c]) && s + [c] == name + (blanks + [c]);
    } else if rules.IsNameChar(c) && (s == "" || !Whitespace(s[|s| - 1])) {
      assert AllName(rules, name + [c]) && Blank("") && s + [c] == (name + [c]) + "";
    }
  }

  /** The automaton gets through exactly the beginnings of end tags within the limit. */
  lemma {:induction false} EndTagEnds(rules: NameRules, limit: nat, s: string)
    ensures
      var ran := Run(EndTagStep(rules, limit), CharWidth(), s, 2, false);
      && (ran.Ended? <==> IsEndBeginning(rules, s) && (s != "" ==> 2 + Len(s) <= limit))
      && (ran.Ended? ==> ran.index == 2 + Len(s) && ran.state == (s != "" && Whitespace(s[|s| - 1])))
  {
    var step := EndTagStep(rules, limit);
    hide NameRules.IsNameChar, IsEndBeginning, Whitespace;
    if s == "" {
      RunNothing(step, CharWidth(), 2, false);
      NothingBegins(rules);
    } else {
      var n := |s| - 1;
      assert s == s[..n] + [s[n]];
      EndBeginningNext(rules, s[..n], s[n]);
      EndTagEnds(rules, limit, s[..n]);
      OffsetStep(s, n);
      assert s[..n + 1] == s;
      hide Run;
      RunConcat(step, CharWidth(), s[..n], [s[n]], 2, false);
      var before := Run(step, CharWidth(), s[..n], 2, false);
      if before.Ended? {
        RunOne(step, CharWidth(), s[n], before.index, before.state);
        if rules.IsNameChar(s[n]) { NameCharacters(rules, s[n]); }
        Brackets(s[n]);
      }
    }
  }

  predicate OpensEndTag(text: string) { |text| >= 2 && text[0] == '<' && text[1] == '/' }

  /** The character that ends an end tag within the limit. */
  ghost predicate EndsThere(rules: NameRules, text: string, limit: nat, k: nat) {
    && 2 <= k < |text| && text[k] == '>' && Len(text[..k]) + 1 <= limit
    && IsEndBeginning(rules, text[2..k])
  }

  /** The character that cannot stand in an end tag, within the limit. */
  ghost predicate WrongThere(rules: NameRules, text: string, limit: nat, k: nat) {
    && 2 <= k < |text| && text[k] != '>' && Len(text[..k + 1]) <= limit
    && IsEndBeginning(rules, text[2..k]) && !IsEndBeginning(rules, text[2..k + 1])
  }

  /** An end tag is a run of name characters, blanks and `>`. */
  lemma EndTagExactly(rules: NameRules, text: string, limit: nat)
    requires OpensEndTag(text)
    ensures
      var report := Token(TagMode, rules, text, limit);
      && (forall e: nat :: report == End(e) <==>
           exists k: nat :: EndsThere(rules, text, limit, k) && e == Len(text[..k]) + 1)
      && (forall at: nat :: report == Fail(InvalidToken, at) <==>
           exists k: nat :: WrongThere(rules, text, limit, k) && at == Len(text[..k]))
      && (report == Incomplete <==> IsEndBeginning(rules, text[2..]) && Len(text) <= limit)
      && (report.Fail? ==> report.kind == InvalidToken || report.kind == LimitExceeded)
  {
    hide Run, IsEndBeginning, Len, Width, EndsThere, WrongThere;
    Opener(text);
    EndTagEnds(rules, limit, text[2..]);
    if EndTagRun(rules, text, limit).Stopped? {
      var k := EndTagStop(rules, text, limit);
    }
    forall k: nat | EndsThere(rules, text, limit, k) || WrongThere(rules, text, limit, k)
      ensures k < |text|
      ensures EndsThere(rules, text, limit, k) ==> EndTagRun(rules, text, limit) == Stopped(End(Len(text[..k]) + 1))
      ensures WrongThere(rules, text, limit, k) ==>
        EndTagRun(rules, text, limit) == Stopped(Fail(InvalidToken, Len(text[..k])))
    {
      EndTagStopsAt(rules, text, limit, k);
    }
  }

  /** The offsets of a character behind a tag's two opening bytes. */
  predicate Split(text: string, k: nat)
    requires 2 <= k < |text|
  {
    && text[2..][..k - 2] == text[2..k] && text[2..][k - 2] == text[k] && text[2..k + 1] == text[2..k] + [text[k]]
    && Len(text[..k + 1]) == Len(text[..k]) + Width(text[k])
  }

  lemma SplitAt(text: string, k: nat)
    requires 2 <= k < |text|
    ensures Split(text, k)
  {
    OffsetStep(text, k);
  }

  lemma EndTagStopsAt(rules: NameRules, text: string, limit: nat, k: nat)
    requires OpensEndTag(text) && (EndsThere(rules, text, limit, k) || WrongThere(rules, text, limit, k))
    ensures 2 <= k < |text|
    ensures EndsThere(rules, text, limit, k) ==> EndTagRun(rules, text, limit) == Stopped(End(Len(text[..k]) + 1))
    ensures WrongThere(rules, text, limit, k) ==>
      EndTagRun(rules, text, limit) == Stopped(Fail(InvalidToken, Len(text[..k])))
  {
    hide Run, IsEndBeginning, Len, NameRules.IsNameChar, Whitespace;
    SplitAt(text, k);
    Opener(text);
    assert text[..k][..2] == text[..2] && text[..k][2..] == text[2..k];
    LenSplit(text[..k], 2);
    EndTagEnds(rules, limit, text[2..k]);
    EndBeginningNext(rules, text[2..k], text[k]);
    Brackets(text[k]);
    RunStopsAt(EndTagStep(rules, limit), CharWidth(), text[2..], 2, false, k - 2);
  }

  lemma EndTagStop(rules: NameRules, text: string, limit: nat) returns (k: nat)
    requires OpensEndTag(text) && EndTagRun(rules, text, limit).Stopped?
    ensures k < |text|
    ensures
      match EndTagRun(rules, text, limit).result
      case Incomplete => false
      case End(e) => e == Len(text[..k]) + 1 && EndsThere(rules, text, limit, k)
      case Fail(kind, at) =>
        if kind == InvalidToken then at == Len(text[..k]) && WrongThere(rules, text, limit, k) else kind == LimitExceeded
  {
    hide Run, IsEndBeginning, Len, NameRules.IsNameChar, Whitespace;
    k := RunStops(EndTagStep(rules, limit), CharWidth(), text[2..], 2, false);
    k := k + 2;
    SplitAt(text, k);
    Opener(text);
    assert text[..k][..2] == text[..2] && text[..k][2..] == text[2..k];
    LenSplit(text[..k], 2);
    EndTagEnds(rules, limit, text[2..k]);
    EndBeginningNext(rules, text[2..k], text[k]);
    Brackets(text[k]);
  }

  lemma Brackets(c: char)
    ensures c == '>' ==> Width(c) == 1 && !Whitespace(c)
  {}

  // ------------------------------------------------------------------ references

  predicate AllDecimal(s: string) { forall i: nat | i < |s| :: '0' <= s[i] <= '9' }

  predicate AllHexadecimal(s: string) {
    forall i: nat | i < |s| :: '0' <= s[i] <= '9' || 'a' <= s[i] <= 'f' || 'A' <= s[i] <= 'F'
  }

  /** Productions [66] and [68] of XML 1.0 between `&` and `;`. */
  predicate IsReference(rules: NameRules, s: string) {
    || rules.IsName(s)
    || (|s| >= 2 && s[0] == '#' && AllDecimal(s[1..]))
    || (|s| >= 3 && s[0] == '#' && s[1] == 'x' && AllHexadecimal(s[2..]))
  }

  /** Such a reference up to some place. */
  predicate IsReferenceBeginning(rules: NameRules, s: string) {
    s == "" || s == "#" || s == "#x" || IsReference(rules, s)
  }

  /** Which character may come next. */
  predicate Continues(rules: NameRules, s: string, c: char) {
    match References.Phase(s)
    case Opening => c == '#' || rules.IsNameStart(c)
    case AfterHash => c == 'x' || DecimalDigit(c)
    case Decimal => DecimalDigit(c)
    case AfterX => HexDigit(c)
    case Hexadecimal => HexDigit(c)
    case InName => rules.IsNameChar(c)
  }

  lemma NameStarts(rules: NameRules, c: char)
    requires rules.IsNameStart(c)
    ensures rules.IsNameChar(c) && c != '#' && c != ';'
  {}

  lemma BeginningNext(rules: NameRules, s: string, c: char)
    ensures IsReferenceBeginning(rules, s + [c]) <==> IsReferenceBeginning(rules, s) && Continues(rules, s, c)
    ensures IsReferenceBeginning(rules, s) && c == ';' ==> !Continues(rules, s, c)
    ensures IsReferenceBeginning(rules, s) ==> (IsReference(rules, s) <==>
      References.Phase(s).Decimal? || References.Phase(s).Hexadecimal? || References.Phase(s).InName?)
  {
    hide NameRules.IsNameStart, NameRules.IsNameChar;
    var all := s + [c];
    assert all[..|s|] == s && all[|s|] == c;
    if s == "" {
      assert all == [c];
      if rules.IsNameStart(c) { NameStarts(rules, c); }
      if rules.IsNameStart('#') { NameStarts(rules, '#'); }
    } else if s[0] == '#' {
      if rules.IsNameStart('#') { NameStarts(rules, '#'); }
      HashNext(rules, s, c);
    } else {
      assert forall i: nat | i < |s| :: all[i] == s[i];
      if rules.IsNameChar(';') { NameCharacters(rules, ';'); }
    }
  }

  lemma HashNext(rules: NameRules, s: string, c: char)
    requires s != "" && s[0] == '#' && !rules.IsNameStart('#')
    ensures IsReferenceBeginning(rules, s + [c]) <==> IsReferenceBeginning(rules, s) && Continues(rules, s, c)
    ensures IsReferenceBeginning(rules, s) && c == ';' ==> !Continues(rules, s, c)
    ensures IsReferenceBeginning(rules, s) ==> (IsReference(rules, s) <==>
      References.Phase(s).Decimal? || References.Phase(s).Hexadecimal? || References.Phase(s).InName?)
  {
    hide NameRules.IsNameStart, NameRules.IsNameChar, IsReferenceBeginning, IsReference, AllDecimal, AllHexadecimal;
    var all := s + [c];
    HashShape(rules, s);
    HashShape(rules, all);
    if |s| == 1 {
      assert all[1..] == "" + [c] && all[2..] == "";
      AllNext("", c);
      NoDigits();
    } else if s[1] == 'x' {
      assert all[2..] == s[2..] + [c];
      AllNext(s[2..], c);
    } else {
      assert all[1..] == s[1..] + [c];
      AllNext(s[1..], c);
    }
  }

  lemma NoDigits()
    ensures AllDecimal("") && AllHexadecimal("")
  {}

  lemma HashShape(rules: NameRules, s: string)
    requires s != "" && s[0] == '#' && !rules.IsNameStart('#')
    ensures IsReference(rules, s)
       <==> |s| >= 2 && if s[1] == 'x' then |s| >= 3 && AllHexadecimal(s[2..]) else AllDecimal(s[1..])
    ensures IsReferenceBeginning(rules, s)
       <==> |s| == 1 || if s[1] == 'x' then AllHexadecimal(s[2..]) else AllDecimal(s[1..])
  {
    hide NameRules.IsNameStart, NameRules.IsNameChar;
    if |s| >= 2 { assert s[1..][0] == s[1]; }
    if |s| == 1 { assert s == "#"; }
    if |s| == 2 { assert s[2..] == "" && (s[1] == 'x' ==> s == "#x"); }
  }

  lemma AllNext(s: string, c: char)
    ensures AllDecimal(s + [c]) <==> AllDecimal(s) && DecimalDigit(c)
    ensures AllHexadecimal(s + [c]) <==> AllHexadecimal(s) && HexDigit(c)
  {
    var all := s + [c];
    assert all[|s|] == c && forall i: nat | i < |s| :: all[i] == s[i];
  }

  /** The automaton gets through exactly the beginnings of references within the limit. */
  lemma {:induction false} ReferenceEnds(rules: NameRules, limit: nat, s: string)
    ensures
      var ran := Run(ReferenceStep(rules, limit), CharWidth(), s, 1, Opening);
      && (ran.Ended? <==> IsReferenceBeginning(rules, s) && (s != "" ==> 1 + Len(s[..|s| - 1]) < limit))
      && (ran.Ended? ==> ran.index == 1 + Len(s) && ran.state == References.Phase(s))
  {
    var step := ReferenceStep(rules, limit);
    hide NameRules.IsNameChar, NameRules.IsNameStart, IsReferenceBeginning;
    if s == "" {
      RunNothing(step, CharWidth(), 1, Opening);
      EmptyBegins(rules);
    } else {
      var n := |s| - 1;
      assert s == s[..n] + [s[n]];
      BeginningNext(rules, s[..n], s[n]);
      ReferenceEnds(rules, limit, s[..n]);
      if n > 0 { OffsetsIncrease(s, n - 1, n); assert s[..n][..n - 1] == s[..n - 1]; }
      RunChars(step, s, 1, Opening);
      if Run(step, CharWidth(), s, 1, Opening).Ended? { References.PhaseAt(rules, limit, s); }
      hide Run, References.Phase, Len;
      RunConcat(step, CharWidth(), s[..n], [s[n]], 1, Opening);
      var before := Run(step, CharWidth(), s[..n], 1, Opening);
      if before.Ended? { RunOne(step, CharWidth(), s[n], before.index, before.state); }
    }
  }

  lemma EmptyBegins(rules: NameRules)
    ensures IsReferenceBeginning(rules, "")
  {}

  /** The `;` that ends a reference within the limit. */
  ghost predicate ReferenceEndsThere(rules: NameRules, text: string, limit: nat, k: nat) {
    1 <= k < |text| && text[k] == ';' && Len(text[..k]) < limit && IsReference(rules, text[1..k])
  }

  /** The character that cannot stand in a reference, within the limit. */
  ghost predicate ReferenceWrongThere(rules: NameRules, text: string, limit: nat, k: nat) {
    && 1 <= k < |text| && Len(text[..k]) < limit && IsReferenceBeginning(rules, text[1..k])
    && !IsReferenceBeginning(rules, text[1..k + 1]) && !(text[k] == ';' && IsReference(rules, text[1..k]))
  }

  /** The offset of a character behind an opening one. */
  lemma BehindFirst(text: string, k: nat)
    requires 1 <= k <= |text| && IsAscii(text[0])
    ensures Len(text[..k]) == 1 + Len(text[1..k]) && text[1..][..k - 1] == text[1..k]
    ensures k < |text| ==> text[1..][k - 1] == text[k] && text[1..k + 1] == text[1..k] + [text[k]]
  {
    LenSplit(text[..k], 1);
    assert text[..k][..1] == [text[0]] && text[..k][1..] == text[1..k];
    assert Len([text[0]]) == Width(text[0]) + Len("");
  }

  lemma ReferenceStopsAt(rules: NameRules, text: string, limit: nat, k: nat)
    requires text != "" && text[0] == '&'
    requires ReferenceEndsThere(rules, text, limit, k) || ReferenceWrongThere(rules, text, limit, k)
    ensures k < |text|
    ensures ReferenceEndsThere(rules, text, limit, k) ==>
      ReferenceRun(rules, text, limit) == Stopped(End(Len(text[..k])))
    ensures ReferenceWrongThere(rules, text, limit, k) ==>
      ReferenceRun(rules, text, limit) == Stopped(Fail(InvalidToken, Len(text[..k])))
  {
    hide Run, Len, NameRules.IsNameChar, NameRules.IsNameStart, IsReference, References.Phase;
    BehindFirst(text, k);
    ReferenceEnds(rules, limit, text[1..k]);
    BeginningNext(rules, text[1..k], text[k]);
    if k > 1 { OffsetsIncrease(text, k - 1, k); BehindFirst(text, k - 1); assert text[1..k][..k - 2] == text[1..k - 1]; }
    RunStopsAt(ReferenceStep(rules, limit), CharWidth(), text[1..], 1, Opening, k - 1);
  }

  lemma ReferenceStop(rules: NameRules, text: string, limit: nat) returns (k: nat)
    requires text != "" && text[0] == '&' && ReferenceRun(rules, text, limit).Stopped?
    ensures k < |text|
    ensures
      match ReferenceRun(rules, text, limit).result
      case Incomplete => false
      case End(at) => at == Len(text[..k]) && ReferenceEndsThere(rules, text, limit, k)
      case Fail(kind, at) =>
        if kind == InvalidToken then at == Len(text[..k]) && ReferenceWrongThere(rules, text, limit, k)
        else kind == LimitExceeded && at == 0 && Len(text) > limit
  {
    hide Run, Len, NameRules.IsNameChar, NameRules.IsNameStart, IsReference, References.Phase;
    k := RunStops(ReferenceStep(rules, limit), CharWidth(), text[1..], 1, Opening);
    k := k + 1;
    BehindFirst(text, k);
    ReferenceEnds(rules, limit, text[1..k]);
    BeginningNext(rules, text[1..k], text[k]);
    OffsetsIncrease(text, k, |text|);
    assert text[..|text|] == text;
  }

  /** A reference ends at the `;` behind a name, a decimal or a hexadecimal number. */
  lemma ReferenceExactly(rules: NameRules, text: string, limit: nat)
    requires text != "" && text[0] == '&'
    ensures
      var report := ReferenceScan(rules, text, limit);
      && (forall at: nat :: report == End(at) <==>
           exists k: nat :: ReferenceEndsThere(rules, text, limit, k) && at == Len(text[..k]))
      && (forall at: nat :: report == Fail(InvalidToken, at) <==>
           exists k: nat :: ReferenceWrongThere(rules, text, limit, k) && at == Len(text[..k]))
      && (report == Incomplete <==> IsReferenceBeginning(rules, text[1..]) && Len(text) <= limit)
      && (report.Fail? ==> report.kind == InvalidToken || report == Fail(LimitExceeded, 0))
  {
    hide Run, Len, IsReferenceBeginning, ReferenceEndsThere, ReferenceWrongThere;
    BehindFirst(text, |text|);
    assert text[..|text|] == text && text[1..|text|] == text[1..];
    ReferenceEnds(rules, limit, text[1..]);
    LastBefore(text);
    if ReferenceRun(rules, text, limit).Stopped? {
      var k := ReferenceStop(rules, text, limit);
    }
    forall k: nat | ReferenceEndsThere(rules, text, limit, k) || ReferenceWrongThere(rules, text, limit, k)
      ensures k < |text|
      ensures ReferenceEndsThere(rules, text, limit, k) ==>
        ReferenceRun(rules, text, limit) == Stopped(End(Len(text[..k])))
      ensures ReferenceWrongThere(rules, text, limit, k) ==>
        ReferenceRun(rules, text, limit) == Stopped(Fail(InvalidToken, Len(text[..k])))
    {
      ReferenceStopsAt(rules, text, limit, k);
    }
  }

  /** The last character starts before the end. */
  lemma LastBefore(text: string)
    requires text != "" && text[0] == '&'
    ensures text[1..] != "" ==> 1 + Len(text[1..][..|text[1..]| - 1]) < Len(text)
    ensures Len(text) >= 1
  {
    BehindFirst(text, |text|);
    assert text[..|text|] == text && text[1..|text|] == text[1..];
    if |text| > 1 {
      var rest := text[1..];
      OffsetsIncrease(rest, |rest| - 1, |rest|);
      assert rest[..|rest|] == rest;
    }
  }

  // -------------------------------------------------------------- prolog literals

  /** A literal up to some place: its quote does not come back, and every character is allowed. */
  predicate IsLiteralBeginning(text: string, k: nat) {
    1 <= k <= |text| && forall i: nat | 1 <= i < k :: text[i] != text[0] && IsXmlChar(text[i])
  }

  lemma {:induction false} LiteralEnds(text: string, limit: nat, k: nat)
    requires 1 <= k <= |text| && IsAscii(text[0])
    ensures
      var ran := Run(LiteralStep(text[0], limit), CharWidth(), text[1..k], 1, ());
      && (ran.Ended? <==> IsLiteralBeginning(text, k) && (k > 1 ==> Len(text[..k - 1]) < limit))
      && (ran.Ended? ==> ran.index == Len(text[..k]))
  {
    var step := LiteralStep(text[0], limit);
    BehindFirst(text, k);
    if k == 1 {
      assert text[1..1] == "";
      RunNothing(step, CharWidth(), 1, ());
    } else {
      BehindFirst(text, k - 1);
      LiteralEnds(text, limit, k - 1);
      OffsetsIncrease(text, k - 1, k);
      if k > 2 { OffsetsIncrease(text, k - 2, k - 1); }
      OffsetStep(text, k - 1);
      hide Run, Len;
      RunConcat(step, CharWidth(), text[1..k - 1], [text[k - 1]], 1, ());
      var before := Run(step, CharWidth(), text[1..k - 1], 1, ());
      if before.Ended? { RunOne(step, CharWidth(), text[k - 1], before.index, ()); }
      assert IsLiteralBeginning(text, k)
        <==> IsLiteralBeginning(text, k - 1) && text[k - 1] != text[0] && IsXmlChar(text[k - 1]);
    }
  }

  ghost predicate LiteralEndsThere(text: string, limit: nat, k: nat) {
    k < |text| && IsLiteralBeginning(text, k) && text[k] == text[0] && IsXmlChar(text[0]) && Len(text[..k]) < limit
  }

  ghost predicate LiteralWrongThere(text: string, limit: nat, k: nat) {
    k < |text| && IsLiteralBeginning(text, k) && !IsXmlChar(text[k]) && Len(text[..k]) < limit
  }

  lemma LiteralStopsAt(text: string, limit: nat, k: nat)
    requires text != "" && IsAscii(text[0]) && (LiteralEndsThere(text, limit, k) || LiteralWrongThere(text, limit, k))
    ensures k < |text|
    ensures LiteralEndsThere(text, limit, k) ==> LiteralRun(text, limit) == Stopped(End(Len(text[..k]) + 1))
    ensures LiteralWrongThere(text, limit, k) ==> LiteralRun(text, limit) == Stopped(Fail(InvalidToken, Len(text[..k])))
  {
    hide Run, Len;
    BehindFirst(text, k);
    LiteralEnds(text, limit, k);
    if k > 1 { OffsetsIncrease(text, k - 1, k); }
    RunStopsAt(LiteralStep(text[0], limit), CharWidth(), text[1..], 1, (), k - 1);
  }

  lemma LiteralStop(text: string, limit: nat) returns (k: nat)
    requires text != "" && IsAscii(text[0]) && LiteralRun(text, limit).Stopped?
    ensures k < |text|
    ensures
      match LiteralRun(text, limit).result
      case Incomplete => false
      case End(at) => at == Len(text[..k]) + 1 && LiteralEndsThere(text, limit, k)
      case Fail(kind, at) =>
        if kind == InvalidToken then at == Len(text[..k]) && LiteralWrongThere(text, limit, k)
        else kind == LimitExceeded && at == 0 && Len(text) > limit
  {
    hide Run, Len;
    k := RunStops(LiteralStep(text[0], limit), CharWidth(), text[1..], 1, ());
    k := k + 1;
    BehindFirst(text, k);
    LiteralEnds(text, limit, k);
    OffsetsIncrease(text, k, |text|);
    assert text[..|text|] == text;
  }

  /** A prolog literal ends behind the first quote like its own, unless a forbidden character comes first. */
  lemma LiteralExactly(text: string, limit: nat)
    requires text != "" && IsAscii(text[0])
    ensures
      var report := Literal(text, limit);
      && (forall at: nat :: report == End(at) <==>
           exists k: nat :: LiteralEndsThere(text, limit, k) && at == Len(text[..k]) + 1)
      && (forall at: nat :: report == Fail(InvalidToken, at) <==>
           exists k: nat :: LiteralWrongThere(text, limit, k) && at == Len(text[..k]))
      && (report == Incomplete <==> IsLiteralBeginning(text, |text|) && Len(text) <= limit)
      && (report.Fail? ==> report.kind == InvalidToken || report == Fail(LimitExceeded, 0))
  {
    hide Run, Len, IsLiteralBeginning, LiteralEndsThere, LiteralWrongThere;
    BehindFirst(text, |text|);
    assert text[..|text|] == text && text[1..|text|] == text[1..];
    LiteralEnds(text, limit, |text|);
    if |text| > 1 { OffsetsIncrease(text, |text| - 1, |text|); }
    if LiteralRun(text, limit).Stopped? {
      var k := LiteralStop(text, limit);
    }
    forall k: nat | LiteralEndsThere(text, limit, k) || LiteralWrongThere(text, limit, k)
      ensures k < |text|
      ensures LiteralEndsThere(text, limit, k) ==> LiteralRun(text, limit) == Stopped(End(Len(text[..k]) + 1))
      ensures LiteralWrongThere(text, limit, k) ==>
        LiteralRun(text, limit) == Stopped(Fail(InvalidToken, Len(text[..k])))
    {
      LiteralStopsAt(text, limit, k);
    }
  }
}
