/** Content models of element declarations (dtd.rs): the recogniser and the grammar it decides. */
module ContentModels {
  import opened Wrappers
  import opened Names

  // --------------------------------------------------------------- the grammar

  /** Productions [45] to [51] of XML 1.0, with the whitespace between tokens. */
  datatype Mark = Once | Optional | Repeated | Required

  datatype Particle =
    | Named(name: string, mark: Mark)
    | Group(before: string, first: Particle, after: string, choice: bool, tail: Tail, mark: Mark)

  /** The further particles of a group, each behind the separator. */
  datatype Tail = End | More(before: string, particle: Particle, after: string, tail: Tail)

  datatype MixedName = MixedName(before: string, name: string, after: string)

  datatype Model =
    | EmptyContent
    | AnyContent
    | Mixed(before: string, after: string, names: seq<MixedName>, star: bool)
    | Children(group: Particle)

  function MarkText(mark: Mark): string {
    match mark
    case Once => ""
    case Optional => "?"
    case Repeated => "*"
    case Required => "+"
  }

  function Separator(choice: bool): char { if choice then '|' else ',' }

  function Print(p: Particle): string
    decreases p
  {
    match p
    case Named(name, mark) => name + MarkText(mark)
    case Group(before, first, after, choice, tail, mark) =>
      "(" + (before + (Print(first) + (after + PrintTail(choice, tail, MarkText(mark)))))
  }

  /** The rest of a group, its closing parenthesis and its mark. */
  function PrintTail(choice: bool, tail: Tail, mark: string): string
    decreases tail
  {
    match tail
    case End => ")" + mark
    case More(before, particle, after, next) =>
      [Separator(choice)] + (before + (Print(particle) + (after + PrintTail(choice, next, mark))))
  }

  function PrintNames(names: seq<MixedName>, star: bool): string {
    if names == [] then if star then ")*" else ")"
    else "|" + (names[0].before + (names[0].name + (names[0].after + PrintNames(names[1..], star))))
  }

  function PrintModel(m: Model): string {
    match m
    case EmptyContent => "EMPTY"
    case AnyContent => "ANY"
    case Mixed(before, after, names, star) => "(" + (before + ("#PCDATA" + (after + PrintNames(names, star))))
    case Children(group) => Print(group)
  }

  datatype Setting = Setting(rules: NameRules, namespaces: bool, limit: nat)
  {
    predicate Name(name: string) { rules.IsName(name) && (namespaces ==> rules.IsQName(name)) }

    /** How deep particles may be nested. */
    function Deepest(): nat { if limit < 256 then limit else 256 }
  }

  predicate Legal(s: Setting, p: Particle) {
    match p
    case Named(name, _) => s.Name(name)
    case Group(before, first, after, _, tail, _) => Blank(before) && Legal(s, first) && Blank(after) && LegalTail(s, tail)
  }

  predicate LegalTail(s: Setting, tail: Tail) {
    match tail
    case End => true
    case More(before, particle, after, next) =>
      Blank(before) && Legal(s, particle) && Blank(after) && LegalTail(s, next)
  }

  predicate LegalModel(s: Setting, m: Model) {
    match m
    case EmptyContent => true
    case AnyContent => true
    case Mixed(before, after, names, star) =>
      && Blank(before) && Blank(after) && (names != [] ==> star)
      && forall i: nat | i < |names| :: Blank(names[i].before) && s.Name(names[i].name) && Blank(names[i].after)
    case Children(group) => group.Group? && Legal(s, group)
  }

  function Height(p: Particle): nat {
    match p
    case Named(_, _) => 0
    case Group(_, first, _, _, tail, _) => 1 + Max(Height(first), TailHeight(tail))
  }

  function TailHeight(tail: Tail): nat {
    match tail
    case End => 0
    case More(_, particle, _, next) => Max(Height(particle), TailHeight(next))
  }

  /** Particles are nested no deeper than the limit, nor than 256. */
  predicate Nested(s: Setting, m: Model) { m.Children? ==> Height(m.group) <= s.limit && Height(m.group) <= 256 }

  predicate StartsMark(text: string) { text != "" && (text[0] == '?' || text[0] == '*' || text[0] == '+') }

  /** What may follow without being taken for a part of the model. */
  predicate Follows(s: Setting, p: Particle, rest: string) {
    p.mark.Once? ==> !StartsMark(rest) && (p.Named? && rest != "" ==> !s.rules.IsNameChar(rest[0]))
  }

  predicate ModelFollows(s: Setting, m: Model, rest: string) {
    match m
    case EmptyContent => true
    case AnyContent => true
    case Mixed(_, _, _, star) => !star ==> rest == "" || rest[0] != '*'
    case Children(group) => Follows(s, group, rest)
  }

  // ------------------------------------------------------------- the recogniser

  datatype Problem =
    | TooDeep | NeedsModel | NeedsName | NeedsQName | MixedInside | UnclosedMixed | NeedsStar | UnclosedGroup
    | NoColon | NeedsValues | EmptyValue | NeedsSeparator

  /** The rest of the text after success, or where the recogniser gave up. */
  datatype Parsed = Ok(rest: string) | Bad(problem: Problem, rest: string)

  function ParseName(s: Setting, text: string): (r: Parsed)
    ensures r.Ok? ==> |r.rest| < |text|
  {
    match NamePrefix(s.rules, text)
    case None => Bad(NeedsName, text)
    case Some(n) => if s.namespaces && !s.rules.IsQName(text[..n]) then Bad(NeedsQName, text) else Ok(text[n..])
  }

  /** An optional repetition mark. */
  function ParseMark(text: string): (rest: string)
    ensures |rest| <= |text|
  {
    if StartsMark(text) then text[1..] else text
  }

  function ParseClose(text: string): (r: Parsed)
    ensures r.Ok? ==> |r.rest| < |text|
  {
    if Starts(text, ")") then Ok(ParseMark(text[1..])) else Bad(UnclosedGroup, text)
  }

  function ParseMixed(s: Setting, text: string, names: bool): (r: Parsed)
    ensures r.Ok? ==> |r.rest| < |text|
    decreases |text|
  {
    if Starts(text, "|") then
      match ParseName(s, TrimStart(text[1..]))
      case Bad(problem, rest) => Bad(problem, rest)
      case Ok(rest) => ParseMixed(s, TrimStart(rest), true)
    else if !Starts(text, ")") then Bad(UnclosedMixed, text)
    else
      var rest := text[1..];
      if Starts(rest, "*") then Ok(rest[1..]) else if names then Bad(NeedsStar, rest) else Ok(rest)
  }

  function Parse(s: Setting, text: string, depth: nat): (r: Parsed)
    ensures r.Ok? ==> |r.rest| < |text|
    decreases |text|, 1
  {
    if depth > s.Deepest() then Bad(TooDeep, text)
    else if depth == 0 && Starts(text, "EMPTY") then Ok(text[5..])
    else if depth == 0 && Starts(text, "ANY") then Ok(text[3..])
    else if !Starts(text, "(") then
      if depth == 0 then Bad(NeedsModel, text)
      else
        match ParseName(s, text)
        case Bad(problem, rest) => Bad(problem, rest)
        case Ok(rest) => Ok(ParseMark(rest))
    else
      var inner := TrimStart(text[1..]);
      if Starts(inner, "#PCDATA") then
        if depth != 0 then Bad(MixedInside, inner[7..]) else ParseMixed(s, TrimStart(inner[7..]), false)
      else
        match Parse(s, inner, depth + 1)
        case Bad(problem, rest) => Bad(problem, rest)
        case Ok(rest) =>
          ParseRest(s, TrimStart(rest), depth)
  }

  /** What may follow the first particle of a group. */
  function ParseRest(s: Setting, text: string, depth: nat): (r: Parsed)
    ensures r.Ok? ==> |r.rest| < |text|
    decreases |text|, 0
  {
    if Starts(text, ",") then ParseTail(s, text[1..], ",", depth)
    else if Starts(text, "|") then ParseTail(s, text[1..], "|", depth)
    else ParseClose(text)
  }

  /** The particles after a separator, up to the closing parenthesis. */
  function ParseTail(s: Setting, text: string, separator: string, depth: nat): (r: Parsed)
    requires |separator| == 1
    ensures r.Ok? ==> |r.rest| < |text|
    decreases |text|, 2
  {
    match Parse(s, TrimStart(text), depth + 1)
    case Bad(problem, rest) => Bad(problem, rest)
    case Ok(rest) =>
      var next := TrimStart(rest);
      if Starts(next, separator) then ParseTail(s, next[1..], separator, depth) else ParseClose(next)
  }

  // ---------------------------------------------------------------- enumerations

  /** Productions [58] and [59] of XML 1.0: one value and the whitespace around it. */
  datatype Value = Value(before: string, text: string, after: string)

  predicate LegalValue(s: Setting, notation: bool, v: Value) {
    && Blank(v.before) && Blank(v.after)
    && if notation then s.Name(v.text) && (s.namespaces ==> ':' !in v.text)
       else v.text != "" && forall i: nat | i < |v.text| :: s.rules.IsNameChar(v.text[i])
  }

  function PrintValues(values: seq<Value>): string
    requires values != []
  {
    values[0].before + (values[0].text + (values[0].after +
      if |values| == 1 then ")" else "|" + PrintValues(values[1..])))
  }

  function ParseValue(s: Setting, notation: bool, text: string): (r: Parsed)
    ensures r.Ok? ==> |r.rest| < |text|
  {
    if notation then
      match ParseName(s, text)
      case Bad(problem, rest) => Bad(problem, rest)
      case Ok(rest) => if s.namespaces && ':' in text[..|text| - |rest|] then Bad(NoColon, rest) else Ok(rest)
    else
      var n := NameChars(s.rules, text);
      if n == 0 then Bad(EmptyValue, text) else Ok(text[n..])
  }

  /** The values from here on, up to the closing parenthesis. */
  function ParseValues(s: Setting, notation: bool, text: string): (r: Parsed)
    ensures r.Ok? ==> |r.rest| < |text|
    decreases |text|
  {
    match ParseValue(s, notation, TrimStart(text))
    case Bad(problem, rest) => Bad(problem, rest)
    case Ok(rest) =>
      var next := TrimStart(rest);
      if Starts(next, ")") then Ok(next[1..])
      else if Starts(next, "|") then ParseValues(s, notation, next[1..])
      else Bad(NeedsSeparator, next)
  }

  function ParseEnumeration(s: Setting, notation: bool, text: string): Parsed {
    if Starts(text, "(") then ParseValues(s, notation, text[1..]) else Bad(NeedsValues, text)
  }

  // ------------------------------------------------------------------ the cursor

  class Cursor {
    var text: string
    const setting: Setting

    constructor (text: string, setting: Setting)
      ensures this.text == text && this.setting == setting
    {
      this.text, this.setting := text, setting;
    }

    method Eat(token: string) returns (eaten: bool)
      modifies this
      ensures eaten == Starts(old(text), token)
      ensures text == if eaten then old(text)[|token|..] else old(text)
      ensures eaten ==> old(text) == token + text
    {
      eaten := Starts(text, token);
      if eaten {
        text := text[|token|..];
      }
    }

    method Space() returns (changed: bool)
      modifies this
      ensures text == TrimStart(old(text)) && changed == (text != old(text))
    {
      var i := 0;
      while i < |text| && Whitespace(text[i])
        invariant i <= |text| && TrimStart(text[i..]) == TrimStart(text) && text == old(text)
      {
        assert text[i..][1..] == text[i + 1..];
        i := i + 1;
      }
      changed := i > 0;
      text := text[i..];
    }

    method Name() returns (problem: Option<Problem>)
      modifies this
      ensures Reports(ParseName(setting, old(text)), problem, text)
    {
      var taken := TakeName(setting.rules, text);
      if taken.None? {
        return Some(NeedsName);
      }
      if setting.namespaces && !setting.rules.IsQName(text[..taken.value]) {
        return Some(NeedsQName);
      }
      text := text[taken.value..];
      problem := None;
    }

    /** `ncname` */
    method NcName() returns (problem: Option<Problem>)
      modifies this
      ensures Reports(ParseValue(setting, true, old(text)), problem, text)
    {
      var start := text;
      problem := Name();
      if problem.None? && setting.namespaces && ':' in start[..|start| - |text|] {
        problem := Some(NoColon);
      }
    }

    /** `enumeration`. */
    method Enumeration(notation: bool) returns (problem: Option<Problem>)
      modifies this
      ensures Reports(ParseEnumeration(setting, notation, old(text)), problem, text)
    {
      hide TrimStart, ParseName;
      var open := Eat("(");
      if !open {
        return Some(NeedsValues);
      }
      ghost var expected := ParseValues(setting, notation, text);
      while true
        invariant expected == ParseValues(setting, notation, text)
        decreases |text|
      {
        var ok := Space();
        if notation {
          problem := NcName();
          if problem.Some? {
            return;
          }
        } else {
          var end := NameChars(setting.rules, text);
          if end == 0 {
            return Some(EmptyValue);
          }
          text := text[end..];
        }
        ok := Space();
        ok := Eat(")");
        if ok {
          return None;
        }
        ok := Eat("|");
        if !ok {
          return Some(NeedsSeparator);
        }
      }
    }

    /** Mixed content behind `#PCDATA`: names, and a star when there are any. */
    method MixedContent() returns (problem: Option<Problem>)
      modifies this
      ensures Reports(ParseMixed(setting, old(text), false), problem, text)
    {
      hide TrimStart, ParseName, Parse, ParseRest, ParseTail, ParseMixed, ParseClose, ParseMark, StartsMark;
      ghost var start := text;
      var names := false;
      var ok := Eat("|");
      while ok
        invariant ParseMixed(setting, start, false) == ParseMixed(setting, if ok then "|" + text else text, names)
        invariant !ok ==> !Starts(text, "|")
        decreases |text|
      {
        AtMixed(setting, "|" + text, names);
        assert ("|" + text)[1..] == text;
        names := true;
        ok := Space();
        problem := Name();
        if problem.Some? {
          return;
        }
        ok := Space();
        ok := Eat("|");
      }
      AtMixed(setting, text, names);
      ok := Eat(")");
      if !ok {
        return Some(UnclosedMixed);
      }
      ok := Eat("*");
      return if names && !ok then Some(NeedsStar) else None;
    }

    /** `parse_content_model`. */
    method ParseContentModel(depth: nat) returns (problem: Option<Problem>)
      modifies this
      ensures Reports(Parse(setting, old(text), depth), problem, text)
      decreases |text|
    {
      hide TrimStart, ParseName, Parse, ParseRest, ParseTail, ParseMixed, ParseClose, ParseMark, StartsMark;
      ghost var start := text;
      AtStart(setting, text, depth);
      if depth > setting.Deepest() {
        return Some(TooDeep);
      }
      if depth == 0 {
        var fixed := Eat("EMPTY");
        if !fixed {
          fixed := Eat("ANY");
        }
        if fixed {
          return None;
        }
      }
      var open := Eat("(");
      var ok;
      if !open {
        if depth == 0 {
          return Some(NeedsModel);
        }
        problem := Name();
        if problem.Some? {
          return;
        }
      } else {
        ok := Space();
        AtGroup(setting, start, depth);
        var mixed := Eat("#PCDATA");
        if mixed {
          if depth != 0 {
            return Some(MixedInside);
          }
          ok := Space();
          problem := MixedContent();
          return;
        }
        problem := ParseContentModel(depth + 1);
        if problem.Some? {
          return;
        }
        ok := Space();
        AtRest(setting, text, depth);
        var separator := ",";
        var separated := Eat(",");
        if !separated {
          separator := "|";
          separated := Eat("|");
        }
        ok := separated;
        while ok
          invariant |separator| == 1 && |text| < |start|
          invariant Parse(setting, start, depth)
                 == if ok then ParseTail(setting, text, separator, depth) else ParseClose(text)
          decreases ok, |text|
        {
          AtTail(setting, text, separator, depth);
          ok := Space();
          problem := ParseContentModel(depth + 1);
          if problem.Some? {
            return;
          }
          ok := Space();
          ok := Eat(separator);
        }
        AtClose(text);
        ok := Eat(")");
        if !ok {
          return Some(UnclosedGroup);
        }
      }
      AtMark(text);
      ok := Eat("?");
      if !ok {
        ok := Eat("+");
      }
      if !ok {
        ok := Eat("*");
      }
      problem := None;
    }
  }

  // --------------------------------------------------- the recogniser, case by case

  predicate Reports(parsed: Parsed, problem: Option<Problem>, rest: string) {
    match parsed
    case Ok(left) => problem == None && rest == left
    case Bad(p, left) => problem == Some(p) && rest == left
  }

  lemma {:induction false} AtStart(s: Setting, text: string, depth: nat)
    ensures depth > s.Deepest() ==> Parse(s, text, depth) == Bad(TooDeep, text)
    ensures depth == 0 && Starts(text, "EMPTY") ==> Parse(s, text, depth) == Ok(text[5..])
    ensures depth == 0 && !Starts(text, "EMPTY") && Starts(text, "ANY") ==> Parse(s, text, depth) == Ok(text[3..])
    ensures depth == 0 && !Starts(text, "EMPTY") && !Starts(text, "ANY") && !Starts(text, "(") ==>
      Parse(s, text, depth) == Bad(NeedsModel, text)
    ensures 0 < depth <= s.Deepest() && !Starts(text, "(") ==>
      Parse(s, text, depth) == match ParseName(s, text)
        case Bad(problem, rest) => Bad(problem, rest)
        case Ok(rest) => Ok(ParseMark(rest))
  {
    hide ParseRest, ParseMixed, ParseName, ParseMark, TrimStart;
  }

  lemma {:induction false} AtGroup(s: Setting, text: string, depth: nat)
    requires depth <= s.Deepest() && Starts(text, "(")
    ensures
      var inner := TrimStart(text[1..]);
      Parse(s, text, depth) ==
        if Starts(inner, "#PCDATA") then
          if depth != 0 then Bad(MixedInside, inner[7..]) else ParseMixed(s, TrimStart(inner[7..]), false)
        else
          match Parse(s, inner, depth + 1)
          case Bad(problem, rest) => Bad(problem, rest)
          case Ok(rest) => ParseRest(s, TrimStart(rest), depth)
  {
    hide ParseRest, ParseMixed, ParseName, ParseMark, TrimStart;
    assert text[0] == '(';
  }

  lemma {:induction false} AtRest(s: Setting, text: string, depth: nat)
    ensures ParseRest(s, text, depth) ==
      if Starts(text, ",") then ParseTail(s, text[1..], ",", depth)
      else if Starts(text, "|") then ParseTail(s, text[1..], "|", depth)
      else ParseClose(text)
  {
    hide ParseTail, ParseClose;
  }

  lemma {:induction false} AtTail(s: Setting, text: string, separator: string, depth: nat)
    requires |separator| == 1
    ensures ParseTail(s, text, separator, depth) ==
      match Parse(s, TrimStart(text), depth + 1)
      case Bad(problem, rest) => Bad(problem, rest)
      case Ok(rest) =>
        var next := TrimStart(rest);
        if Starts(next, separator) then ParseTail(s, next[1..], separator, depth) else ParseClose(next)
  {
    hide Parse, ParseClose, TrimStart;
  }

  lemma {:induction false} AtMixed(s: Setting, text: string, names: bool)
    ensures ParseMixed(s, text, names) ==
      if Starts(text, "|") then
        match ParseName(s, TrimStart(text[1..]))
        case Bad(problem, rest) => Bad(problem, rest)
        case Ok(rest) => ParseMixed(s, TrimStart(rest), true)
      else if !Starts(text, ")") then Bad(UnclosedMixed, text)
      else if Starts(text[1..], "*") then Ok(text[1..][1..])
      else if names then Bad(NeedsStar, text[1..]) else Ok(text[1..])
  {
    hide ParseName, TrimStart;
  }

  lemma AtClose(text: string)
    ensures ParseClose(text) == if Starts(text, ")") then Ok(ParseMark(text[1..])) else Bad(UnclosedGroup, text)
  {}

  lemma AtMark(text: string)
    ensures ParseMark(text) == if Starts(text, "?") || Starts(text, "+") || Starts(text, "*") then text[1..] else text
  {}
}
