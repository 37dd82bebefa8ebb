/** The content model recogniser accepts exactly the grammar. */
module ContentGrammar {
  import opened Names
  import opened ContentModels

  // ---------------------------------------------------------------- whitespace

  predicate StartsSolid(text: string) { text == "" || !Whitespace(text[0]) }

  lemma {:induction false} SkipBlank(blank: string, text: string)
    requires Blank(blank) && StartsSolid(text)
    ensures TrimStart(blank + text) == text
  {
    if blank == "" {
      assert blank + text == text;
    } else {
      assert (blank + text)[1..] == blank[1..] + text;
      SkipBlank(blank[1..], text);
    }
  }

  lemma {:induction false} SkipSplits(text: string) returns (blank: string)
    ensures Blank(blank) && text == blank + TrimStart(text) && StartsSolid(TrimStart(text))
  {
    blank := "";
    if text != "" && Whitespace(text[0]) {
      var rest := SkipSplits(text[1..]);
      blank := [text[0]] + rest;
      assert text == [text[0]] + text[1..];
      assert blank + TrimStart(text) == [text[0]] + (rest + TrimStart(text[1..]));
    }
  }

  // ----------------------------------------------------------- names and marks

  predicate MarkFollows(mark: Mark, rest: string) { mark.Once? ==> !StartsMark(rest) }

  lemma MarkSplits(text: string) returns (mark: Mark)
    ensures text == MarkText(mark) + ParseMark(text) && MarkFollows(mark, ParseMark(text))
  {
    if !StartsMark(text) {
      mark := Once;
    } else if text[0] == '?' {
      mark := Optional;
    } else if text[0] == '*' {
      mark := Repeated;
    } else {
      mark := Required;
    }
    assert mark.Once? || text == [text[0]] + text[1..];
  }

  lemma MarkParses(mark: Mark, rest: string)
    requires MarkFollows(mark, rest)
    ensures ParseMark(MarkText(mark) + rest) == rest
  {
    assert mark.Once? ==> MarkText(mark) + rest == rest;
    assert !mark.Once? ==> (MarkText(mark) + rest)[1..] == rest;
  }

  predicate EndsName(s: Setting, rest: string) { rest == "" || !s.rules.IsNameChar(rest[0]) }

  lemma NameSplits(s: Setting, text: string) returns (name: string)
    requires ParseName(s, text).Ok?
    ensures s.Name(name) && text == name + ParseName(s, text).rest && EndsName(s, ParseName(s, text).rest)
  {
    var n := NamePrefix(s.rules, text).value;
    name := text[..n];
    assert text == text[..n] + text[n..];
    assert n == 1 + NameChars(s.rules, text[1..]);
    assert n < |text| ==> text[1..][n - 1] == text[n];
  }

  lemma NameParses(s: Setting, name: string, rest: string)
    requires s.Name(name) && EndsName(s, rest)
    ensures ParseName(s, name + rest) == Ok(rest)
  {
    NamePrefixOf(s.rules, name, rest);
    assert (name + rest)[..|name|] == name && (name + rest)[|name|..] == rest;
  }

  /** Names start with none of the characters that have a meaning of their own here. */
  lemma NameStarts(s: Setting, name: string)
    requires s.Name(name)
    ensures name != "" && name[0] !in " \t\r\n(#|,)?*+"
  {}

  /** Characters that end a name without marking it. */
  predicate Terminates(c: char) { Whitespace(c) || c == '|' || c == ',' || c == ')' }

  lemma Terminators(s: Setting, rest: string)
    requires rest != "" && Terminates(rest[0])
    ensures EndsName(s, rest) && !StartsMark(rest)
  {}

  lemma MarksEndNames(s: Setting, mark: Mark, rest: string)
    ensures mark.Once? || EndsName(s, MarkText(mark) + rest)
  {}

  // ------------------------------------------------------------------ particles

  lemma GroupText(p: Particle, rest: string)
    requires p.Group?
    ensures Print(p) + rest
         == "(" + (p.before + (Print(p.first) + (p.after + (PrintTail(p.choice, p.tail, MarkText(p.mark)) + rest))))
  {
    hide Print, PrintTail;
    PrintGroup(p);
  }

  lemma PrintGroup(p: Particle)
    requires p.Group?
    ensures Print(p) == "(" + (p.before + (Print(p.first) + (p.after + PrintTail(p.choice, p.tail, MarkText(p.mark)))))
  {}

  lemma TailText(choice: bool, tail: Tail, mark: string, rest: string)
    ensures tail.End? ==> PrintTail(choice, tail, mark) + rest == ")" + (mark + rest)
    ensures tail.More? ==>
      PrintTail(choice, tail, mark) + rest == [Separator(choice)] + ItemText(choice, tail, mark, rest)
  {}

  /** What follows a separator. */
  function ItemText(choice: bool, tail: Tail, mark: string, rest: string): string
    requires tail.More?
  {
    tail.before + (Print(tail.particle) + (tail.after + (PrintTail(choice, tail.tail, mark) + rest)))
  }

  lemma TailStarts(choice: bool, tail: Tail, mark: string, rest: string)
    ensures
      var text := PrintTail(choice, tail, mark) + rest;
      text != "" && text[0] == if tail.End? then ')' else Separator(choice)
  {}

  /** A particle is followed by whitespace, a separator or a parenthesis. */
  lemma AfterParticle(s: Setting, p: Particle, after: string, text: string)
    requires Blank(after) && text != "" && Terminates(text[0])
    ensures Follows(s, p, after + text)
  {
    Terminators(s, after + text);
  }

  lemma ParticleStarts(s: Setting, p: Particle)
    requires Legal(s, p)
    ensures Print(p) != "" && Print(p)[0] !in " \t\r\n#|,)?*+" && (p.Named? ==> Print(p)[0] != '(')
  {
    if p.Named? { NameStarts(s, p.name); }
  }

  lemma SolidParticle(s: Setting, p: Particle, rest: string)
    requires Legal(s, p)
    ensures StartsSolid(Print(p) + rest) && !Starts(Print(p) + rest, "#PCDATA")
  {
    ParticleStarts(s, p);
  }

  /** Every particle of the grammar is recognised whole, in every layout. */
  lemma {:induction false} Complete(s: Setting, p: Particle, depth: nat, rest: string)
    requires Legal(s, p) && depth + Height(p) <= s.Deepest() && (depth > 0 || p.Group?) && Follows(s, p, rest)
    ensures Parse(s, Print(p) + rest, depth) == Ok(rest)
    decreases p
  {
    hide TrimStart, Print, PrintTail, ParseTail, ParseName, ParseMark, NameRules.IsName, NameRules.IsQName, Blank;
    match p
    case Named(name, mark) => CompleteName(s, name, mark, depth, rest);
    case Group(before, first, after, choice, tail, mark) =>
      var text := Print(p) + rest;
      var more := PrintTail(choice, tail, MarkText(mark)) + rest;
      GroupText(p, rest);
      SolidParticle(s, first, after + more);
      SkipBlank(before, Print(first) + (after + more));
      assert text[1..] == before + (Print(first) + (after + more));
      TailStarts(choice, tail, MarkText(mark), rest);
      AfterParticle(s, first, after, more);
      Complete(s, first, depth + 1, after + more);
      SkipBlank(after, more);
      CompleteRest(s, choice, tail, mark, depth, rest);
  }

  lemma CompleteName(s: Setting, name: string, mark: Mark, depth: nat, rest: string)
    requires s.Name(name) && 0 < depth <= s.Deepest() && Follows(s, Named(name, mark), rest)
    ensures Parse(s, Print(Named(name, mark)) + rest, depth) == Ok(rest)
  {
    hide ParseName, ParseMark, NameRules.IsName, NameRules.IsQName;
    var tail := MarkText(mark) + rest;
    assert Print(Named(name, mark)) + rest == name + tail;
    NameStarts(s, name);
    assert (name + tail)[0] == name[0] && !Starts(name + tail, "(");
    MarksEndNames(s, mark, rest);
    assert mark.Once? ==> tail == rest;
    NameParses(s, name, tail);
    MarkParses(mark, rest);
  }

  /** What follows the first particle of a group is read to its end. */
  lemma {:induction false} CompleteRest(s: Setting, choice: bool, tail: Tail, mark: Mark, depth: nat, rest: string)
    requires LegalTail(s, tail) && depth + 1 + TailHeight(tail) <= s.Deepest() && MarkFollows(mark, rest)
    ensures
      var text := PrintTail(choice, tail, MarkText(mark)) + rest;
      && text != ""
      && (tail.End? ==> text[0] == ')' && ParseClose(text) == Ok(rest))
      && (tail.More? ==> text[0] == Separator(choice) && ParseTail(s, text[1..], [Separator(choice)], depth) == Ok(rest))
    decreases tail
  {
    hide TrimStart, Print, PrintTail, Parse, ParseMark, Blank;
    var text := PrintTail(choice, tail, MarkText(mark)) + rest;
    TailText(choice, tail, MarkText(mark), rest);
    if tail.End? {
      MarkParses(mark, rest);
      assert text[1..] == MarkText(mark) + rest;
    } else {
      var more := PrintTail(choice, tail.tail, MarkText(mark)) + rest;
      assert text[1..] == tail.before + (Print(tail.particle) + (tail.after + more));
      SolidParticle(s, tail.particle, tail.after + more);
      SkipBlank(tail.before, Print(tail.particle) + (tail.after + more));
      TailStarts(choice, tail.tail, MarkText(mark), rest);
      AfterParticle(s, tail.particle, tail.after, more);
      Complete(s, tail.particle, depth + 1, tail.after + more);
      SkipBlank(tail.after, more);
      CompleteRest(s, choice, tail.tail, mark, depth, rest);
    }
  }

  /** A particle of the grammar that is nested too deep is refused for that. */
  lemma {:induction false} TooDeepRefused(s: Setting, p: Particle, depth: nat, rest: string)
    requires Legal(s, p) && depth + Height(p) > s.Deepest() && (depth > 0 || p.Group?)
    ensures Parse(s, Print(p) + rest, depth).Bad? && Parse(s, Print(p) + rest, depth).problem == TooDeep
    decreases p
  {
    hide TrimStart, Print, PrintTail, ParseTail, ParseName, ParseMark, NameRules.IsName, NameRules.IsQName, Blank;
    if depth <= s.Deepest() {
      var text := Print(p) + rest;
      var more := PrintTail(p.choice, p.tail, MarkText(p.mark)) + rest;
      GroupText(p, rest);
      SolidParticle(s, p.first, p.after + more);
      SkipBlank(p.before, Print(p.first) + (p.after + more));
      assert text[1..] == p.before + (Print(p.first) + (p.after + more));
      GroupOpens(p, rest);
      AtStart(s, text, depth);
      AtGroup(s, text, depth);
      if depth + 1 + Height(p.first) > s.Deepest() {
        TooDeepRefused(s, p.first, depth + 1, p.after + more);
      } else {
        TailStarts(p.choice, p.tail, MarkText(p.mark), rest);
        AfterParticle(s, p.first, p.after, more);
        Complete(s, p.first, depth + 1, p.after + more);
        SkipBlank(p.after, more);
        TooDeepBehind(s, p.choice, p.tail, p.mark, depth, rest);
      }
    }
  }

  lemma GroupOpens(p: Particle, rest: string)
    requires p.Group?
    ensures Starts(Print(p) + rest, "(")
  {
    hide PrintTail;
  }

  lemma {:induction false} TooDeepBehind(s: Setting, choice: bool, tail: Tail, mark: Mark, depth: nat, rest: string)
    requires LegalTail(s, tail) && depth + 1 <= s.Deepest() < depth + 1 + TailHeight(tail)
    ensures
      var text := PrintTail(choice, tail, MarkText(mark)) + rest;
      && tail.More? && text != "" && text[0] == Separator(choice)
      && ParseTail(s, text[1..], [Separator(choice)], depth).Bad?
      && ParseTail(s, text[1..], [Separator(choice)], depth).problem == TooDeep
    decreases tail
  {
    hide TrimStart, Print, PrintTail, Parse, ParseMark, Blank;
    var text := PrintTail(choice, tail, MarkText(mark)) + rest;
    TailText(choice, tail, MarkText(mark), rest);
    var more := PrintTail(choice, tail.tail, MarkText(mark)) + rest;
    assert text[1..] == tail.before + (Print(tail.particle) + (tail.after + more));
    SolidParticle(s, tail.particle, tail.after + more);
    SkipBlank(tail.before, Print(tail.particle) + (tail.after + more));
    if depth + 1 + Height(tail.particle) > s.Deepest() {
      TooDeepRefused(s, tail.particle, depth + 1, tail.after + more);
    } else {
      TailStarts(choice, tail.tail, MarkText(mark), rest);
      AfterParticle(s, tail.particle, tail.after, more);
      Complete(s, tail.particle, depth + 1, tail.after + more);
      SkipBlank(tail.after, more);
      TooDeepBehind(s, choice, tail.tail, mark, depth, rest);
    }
  }

  /** A recognised particle is one of the grammar, nested no deeper than allowed. */
  lemma {:induction false} Sound(s: Setting, text: string, depth: nat) returns (p: Particle)
    requires Parse(s, text, depth).Ok? && (depth > 0 || Starts(text, "(")) && !IsMixed(text)
    ensures Legal(s, p) && depth + Height(p) <= s.Deepest() && (depth == 0 ==> p.Group?)
    ensures text == Print(p) + Parse(s, text, depth).rest && Follows(s, p, Parse(s, text, depth).rest)
    decreases |text|, 1
  {
    hide TrimStart, Print, PrintTail, Parse, ParseTail, ParseName, ParseMark, NameRules.IsName, NameRules.IsQName, Blank;
    var rest := Parse(s, text, depth).rest;
    AtStart(s, text, depth);
    if !Starts(text, "(") {
      p := SoundName(s, text, depth);
    } else {
      AtGroup(s, text, depth);
      var before := SkipSplits(text[1..]);
      var inner := TrimStart(text[1..]);
      NotMixedInside(s, inner, depth + 1);
      var first := Sound(s, inner, depth + 1);
      var after := SkipSplits(Parse(s, inner, depth + 1).rest);
      var next := TrimStart(Parse(s, inner, depth + 1).rest);
      var choice := Starts(next, "|");
      var tail, mark := SoundRest(s, next, choice, depth, rest);
      p := Group(before, first, after, choice, tail, mark);
      GroupText(p, rest);
      assert text == "(" + text[1..];
    }
  }

  /** A `#PCDATA` group. */
  predicate IsMixed(text: string) { Starts(text, "(") && Starts(TrimStart(text[1..]), "#PCDATA") }

  lemma SoundName(s: Setting, text: string, depth: nat) returns (p: Particle)
    requires Parse(s, text, depth).Ok? && depth > 0 && !Starts(text, "(")
    ensures p.Named? && Legal(s, p) && depth <= s.Deepest()
    ensures text == Print(p) + Parse(s, text, depth).rest && Follows(s, p, Parse(s, text, depth).rest)
  {
    hide ParseName, ParseMark, NameRules.IsName, NameRules.IsQName;
    var name := NameSplits(s, text);
    var tail := ParseName(s, text).rest;
    var mark := MarkSplits(tail);
    p := Named(name, mark);
    assert text == name + (MarkText(mark) + ParseMark(tail));
    assert mark.Once? ==> tail == ParseMark(tail);
  }

  lemma {:induction false} SoundRest(s: Setting, text: string, choice: bool, depth: nat, rest: string)
    returns (tail: Tail, mark: Mark)
    requires
      if Starts(text, [Separator(choice)]) then ParseTail(s, text[1..], [Separator(choice)], depth) == Ok(rest)
      else ParseClose(text) == Ok(rest)
    ensures LegalTail(s, tail) && (tail.More? ==> depth + 1 + TailHeight(tail) <= s.Deepest())
    ensures text == PrintTail(choice, tail, MarkText(mark)) + rest && MarkFollows(mark, rest)
    decreases |text|, 0
  {
    hide TrimStart, Print, PrintTail, Parse, ParseMark, Blank;
    if Starts(text, [Separator(choice)]) {
      var body := text[1..];
      var before := SkipSplits(body);
      var parsed := Parse(s, TrimStart(body), depth + 1);
      NotMixedInside(s, TrimStart(body), depth + 1);
      var particle := Sound(s, TrimStart(body), depth + 1);
      var after := SkipSplits(parsed.rest);
      var next := TrimStart(parsed.rest);
      var later;
      later, mark := SoundRest(s, next, choice, depth, rest);
      tail := More(before, particle, after, later);
      TailText(choice, tail, MarkText(mark), rest);
      assert text == [Separator(choice)] + body;
    } else {
      mark := MarkSplits(text[1..]);
      tail := End;
      TailText(choice, tail, MarkText(mark), rest);
      assert text == ")" + text[1..];
    }
  }

  lemma NotMixedInside(s: Setting, text: string, depth: nat)
    requires depth > 0 && Parse(s, text, depth).Ok?
    ensures !IsMixed(text)
  {
    hide TrimStart, ParseTail, ParseName, ParseMark;
  }

  // --------------------------------------------------------------- mixed content

  predicate LegalNames(s: Setting, names: seq<MixedName>) {
    forall i: nat | i < |names| :: Blank(names[i].before) && s.Name(names[i].name) && Blank(names[i].after)
  }

  predicate StarFollows(star: bool, rest: string) { !star ==> rest == "" || rest[0] != '*' }

  lemma NamesText(names: seq<MixedName>, star: bool, rest: string)
    ensures
      PrintNames(names, star) + rest ==
        if names == [] then ")" + ((if star then "*" else "") + rest)
        else "|" + (names[0].before + (names[0].name + (names[0].after + (PrintNames(names[1..], star) + rest))))
  {}

  lemma {:induction false} CompleteNames(s: Setting, names: seq<MixedName>, star: bool, seen: bool, rest: string)
    requires LegalNames(s, names) && (seen || names != [] ==> star) && StarFollows(star, rest)
    ensures ParseMixed(s, PrintNames(names, star) + rest, seen) == Ok(rest)
    decreases |names|
  {
    hide TrimStart, PrintNames, ParseName, NameRules.IsName, NameRules.IsQName, Blank;
    NamesText(names, star, rest);
    if names == [] {
      var text := PrintNames(names, star) + rest;
      assert text[1..] == (if star then "*" else "") + rest;
      assert star ==> text[1..][1..] == rest;
      assert !star ==> text[1..] == rest;
    } else {
      var n := names[0];
      var more := PrintNames(names[1..], star) + rest;
      var text := "|" + (n.before + (n.name + (n.after + more)));
      NamesText(names[1..], star, rest);
      NameStarts(s, n.name);
      assert text[1..] == n.before + (n.name + (n.after + more));
      SkipBlank(n.before, n.name + (n.after + more));
      NameEnds(s, n.after, more);
      NameParses(s, n.name, n.after + more);
      SkipBlank(n.after, more);
      CompleteNames(s, names[1..], star, true, rest);
    }
  }

  lemma NameEnds(s: Setting, after: string, more: string)
    requires Blank(after) && more != "" && Terminates(more[0])
    ensures EndsName(s, after + more)
  {
    Terminators(s, after + more);
  }

  lemma {:induction false} SoundNames(s: Setting, text: string, seen: bool) returns (names: seq<MixedName>, star: bool)
    requires ParseMixed(s, text, seen).Ok?
    ensures LegalNames(s, names) && (seen || names != [] ==> star)
    ensures text == PrintNames(names, star) + ParseMixed(s, text, seen).rest
    ensures StarFollows(star, ParseMixed(s, text, seen).rest)
    decreases |text|
  {
    hide TrimStart, PrintNames, ParseName, ParseMixed, NameRules.IsName, NameRules.IsQName, Blank;
    AtMixed(s, text, seen);
    var rest := ParseMixed(s, text, seen).rest;
    if Starts(text, "|") {
      var before := SkipSplits(text[1..]);
      var named := TrimStart(text[1..]);
      var name := NameSplits(s, named);
      var tail := ParseName(s, named).rest;
      var after := SkipSplits(tail);
      names, star := SoundNames(s, TrimStart(tail), true);
      var n := MixedName(before, name, after);
      assert text == "|" + text[1..];
      var all := [n] + names;
      assert all[1..] == names;
      NamesText(all, star, rest);
      names := all;
    } else {
      names := [];
      star := Starts(text[1..], "*");
      NamesText(names, star, rest);
      assert text == ")" + text[1..];
      assert star ==> text[1..] == "*" + text[1..][1..];
    }
  }

  // ------------------------------------------------------------- whole models

  /** A model of the grammar, in some layout, in front of the rest of the text. */
  predicate Denotes(s: Setting, m: Model, text: string, rest: string) {
    LegalModel(s, m) && Nested(s, m) && ModelFollows(s, m, rest) && text == PrintModel(m) + rest
  }

  lemma CompleteModel(s: Setting, m: Model, text: string, rest: string)
    requires Denotes(s, m, text, rest)
    ensures Parse(s, text, 0) == Ok(rest)
  {
    hide TrimStart, Print, Parse;
    AtStart(s, text, 0);
    match m {
      case EmptyContent => assert text[..5] == "EMPTY" && text[5..] == rest;
      case AnyContent => assert text[0] == 'A' && text[..3] == "ANY" && text[3..] == rest;
      case Children(group) => Complete(s, group, 0, rest);
      case Mixed(_, _, _, _) => CompleteMixed(s, m, rest);
    }
  }

  lemma CompleteMixed(s: Setting, m: Model, rest: string)
    requires m.Mixed? && LegalModel(s, m) && ModelFollows(s, m, rest)
    ensures Parse(s, PrintModel(m) + rest, 0) == Ok(rest)
  {
    hide TrimStart, Parse, ParseMixed, PrintNames, Blank, PrintModel;
    var text, token := PrintModel(m) + rest, "#PCDATA";
    var more := PrintNames(m.names, m.star) + rest;
    MixedText(m, rest);
    AtGroup(s, text, 0);
    assert text[1..] == m.before + (token + (m.after + more));
    SkipBlank(m.before, token + (m.after + more));
    assert (token + (m.after + more))[7..] == m.after + more;
    NamesText(m.names, m.star, rest);
    SkipBlank(m.after, more);
    CompleteNames(s, m.names, m.star, false, rest);
  }

  lemma SoundModel(s: Setting, text: string) returns (m: Model)
    requires Parse(s, text, 0).Ok?
    ensures Denotes(s, m, text, Parse(s, text, 0).rest)
  {
    hide TrimStart, Print, ParseMixed, PrintNames, ParseTail, ParseMark;
    var rest := Parse(s, text, 0).rest;
    if Starts(text, "EMPTY") {
      m := EmptyContent;
      assert text == text[..5] + text[5..];
    } else if Starts(text, "ANY") {
      m := AnyContent;
      assert text == text[..3] + text[3..];
    } else if IsMixed(text) {
      var before := SkipSplits(text[1..]);
      var inner := TrimStart(text[1..]);
      var after := SkipSplits(inner[7..]);
      var names, star := SoundNames(s, TrimStart(inner[7..]), false);
      m := Mixed(before, after, names, star);
      assert text == "(" + text[1..];
      assert inner == "#PCDATA" + inner[7..];
      MixedText(m, rest);
    } else {
      var group := Sound(s, text, 0);
      m := Children(group);
    }
  }

  lemma MixedText(m: Model, rest: string)
    requires m.Mixed?
    ensures PrintModel(m) + rest
         == "(" + (m.before + ("#PCDATA" + (m.after + (PrintNames(m.names, m.star) + rest))))
  {
    hide PrintNames;
  }

  /** Sections 3.2 to 3.2.2 of XML 1.0, exactly: a text is accepted up to `rest` when, and only
      when, it is a model of the grammar nested no deeper than allowed, in front of `rest`. */
  lemma ContentModelExactly(s: Setting, text: string, rest: string)
    ensures Parse(s, text, 0) == Ok(rest) <==> exists m :: Denotes(s, m, text, rest)
  {
    hide Parse, Denotes;
    if Parse(s, text, 0) == Ok(rest) {
      var m := SoundModel(s, text);
      assert Denotes(s, m, text, rest);
    }
    if m :| Denotes(s, m, text, rest) { CompleteModel(s, m, text, rest); }
  }

  /** And a model of the grammar that is not accepted for its depth alone is refused for it. */
  lemma DepthExactly(s: Setting, group: Particle, rest: string)
    requires group.Group? && Legal(s, group) && Follows(s, group, rest)
    ensures
      var parsed := Parse(s, Print(group) + rest, 0);
      if Height(group) <= s.limit && Height(group) <= 256 then parsed == Ok(rest)
      else parsed.Bad? && parsed.problem == TooDeep
  {
    hide Parse, Print, Legal, Height, Follows;
    if Height(group) <= s.Deepest() { Complete(s, group, 0, rest); } else { TooDeepRefused(s, group, 0, rest); }
  }

  // ---------------------------------------------------------------- enumerations

  predicate LegalValues(s: Setting, notation: bool, values: seq<Value>) {
    values != [] && forall i: nat | i < |values| :: LegalValue(s, notation, values[i])
  }

  /** A list of values, in some layout, in front of the rest of the text. */
  predicate Lists(s: Setting, notation: bool, values: seq<Value>, text: string, rest: string) {
    LegalValues(s, notation, values) && text == "(" + (PrintValues(values) + rest)
  }

  /** What follows the first value. */
  function ValuesAfter(values: seq<Value>, rest: string): string
    requires values != []
  {
    if |values| == 1 then ")" + rest else "|" + (PrintValues(values[1..]) + rest)
  }

  lemma ValuesText(values: seq<Value>, rest: string)
    requires values != []
    ensures PrintValues(values) + rest
         == values[0].before + (values[0].text + (values[0].after + ValuesAfter(values, rest)))
  {}

  lemma ValueParses(s: Setting, notation: bool, v: Value, more: string)
    requires LegalValue(s, notation, v) && more != "" && Terminates(more[0])
    ensures v.text != "" && StartsSolid(v.text + (v.after + more))
    ensures ParseValue(s, notation, v.text + (v.after + more)) == Ok(v.after + more)
  {
    var tail := v.after + more;
    var text := v.text + tail;
    NameEnds(s, v.after, more);
    if notation {
      NameStarts(s, v.text);
      NameParses(s, v.text, tail);
      assert text[..|text| - |tail|] == v.text;
    } else {
      CountValue(s, v.text, tail);
      assert text[|v.text|..] == tail && text[0] == v.text[0];
    }
  }

  lemma {:induction false} CountValue(s: Setting, value: string, tail: string)
    requires (forall i: nat | i < |value| :: s.rules.IsNameChar(value[i])) && EndsName(s, tail)
    ensures NameChars(s.rules, value + tail) == |value|
  {
    if value == "" {
      assert value + tail == tail;
    } else {
      assert (value + tail)[1..] == value[1..] + tail;
      CountValue(s, value[1..], tail);
    }
  }

  lemma {:induction false} CompleteValues(s: Setting, notation: bool, values: seq<Value>, rest: string)
    requires LegalValues(s, notation, values)
    ensures ParseValues(s, notation, PrintValues(values) + rest) == Ok(rest)
    decreases |values|
  {
    hide TrimStart, PrintValues, ParseValue, LegalValue;
    var v, more := values[0], ValuesAfter(values, rest);
    ValuesText(values, rest);
    ValueParses(s, notation, v, more);
    LayoutBlank(s, notation, v);
    SkipBlank(v.before, v.text + (v.after + more));
    SkipBlank(v.after, more);
    if |values| == 1 {
      assert more[1..] == rest;
    } else {
      assert more[1..] == PrintValues(values[1..]) + rest;
      CompleteValues(s, notation, values[1..], rest);
    }
  }

  lemma LayoutBlank(s: Setting, notation: bool, v: Value)
    requires LegalValue(s, notation, v)
    ensures Blank(v.before) && Blank(v.after)
  {}

  lemma ValueSplits(s: Setting, notation: bool, text: string) returns (value: string)
    requires ParseValue(s, notation, text).Ok?
    ensures text == value + ParseValue(s, notation, text).rest
    ensures LegalValue(s, notation, Value("", value, ""))
  {
    var rest := ParseValue(s, notation, text).rest;
    if notation {
      value := NameSplits(s, text);
      assert text[..|text| - |rest|] == value;
    } else {
      value := text[..|text| - |rest|];
      assert text == value + text[|value|..];
    }
  }

  lemma {:induction false} SoundValues(s: Setting, notation: bool, text: string) returns (values: seq<Value>)
    requires ParseValues(s, notation, text).Ok?
    ensures LegalValues(s, notation, values)
    ensures text == PrintValues(values) + ParseValues(s, notation, text).rest
    decreases |text|
  {
    hide TrimStart, PrintValues, ParseValue, LegalValue;
    var rest := ParseValues(s, notation, text).rest;
    var before := SkipSplits(text);
    var body := TrimStart(text);
    var value := ValueSplits(s, notation, body);
    var tail := ParseValue(s, notation, body).rest;
    var after := SkipSplits(tail);
    var next := TrimStart(tail);
    var v := Value(before, value, after);
    Framed(s, notation, v);
    if Starts(next, ")") {
      values := [v];
      assert next == ")" + next[1..];
    } else {
      var later := SoundValues(s, notation, next[1..]);
      values := [v] + later;
      assert values[1..] == later && next == "|" + next[1..];
    }
    ValuesText(values, rest);
  }

  lemma Framed(s: Setting, notation: bool, v: Value)
    requires LegalValue(s, notation, Value("", v.text, "")) && Blank(v.before) && Blank(v.after)
    ensures LegalValue(s, notation, v)
  {}

  /** Section 3.3.1 of XML 1.0, exactly: an enumeration is accepted up to its rest when, and only
      when, it is a parenthesized list of values in some layout. */
  lemma EnumerationExactly(s: Setting, notation: bool, text: string, rest: string)
    ensures ParseEnumeration(s, notation, text) == Ok(rest) <==> exists values :: Lists(s, notation, values, text, rest)
  {
    hide ParseValues, PrintValues, LegalValue;
    if ParseEnumeration(s, notation, text) == Ok(rest) {
      var values := SoundValues(s, notation, text[1..]);
      assert text == "(" + text[1..];
      assert Lists(s, notation, values, text, rest);
    }
    if values :| Lists(s, notation, values, text, rest) {
      assert text[1..] == PrintValues(values) + rest;
      CompleteValues(s, notation, values, rest);
    }
  }
}
