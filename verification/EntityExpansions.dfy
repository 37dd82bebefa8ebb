/** What an entity value is, said without building it (sections 4.4 and 4.5 of XML 1.0): how its text falls
    into runs and references, what each of them contributes, and where it has to stop. */
module EntityExpansions {
  import opened Unicode
  import opened Wrappers
  import opened Errors
  import opened Names
  import opened Lexical
  import opened LexicalBuffer
  import opened EntityValues
  import opened CharacterSpellings

  // ---------------------------------------------------------------- the pieces

  /** A text: runs without delimiters, and the references between them with what they stand for. The
      last constructor leaves text unread. */
  datatype Expansion =
    | Last(run: seq<LexChar>)
    | Step(run: seq<LexChar>, reference: seq<LexChar>, part: Part, rest: Expansion)
    | Ends(run: seq<LexChar>, reference: seq<LexChar>, problem: Problem, left: seq<LexChar>)

  datatype Part = Number(c: char) | General | Included(inner: Expansion) | Missing | Reserved

  datatype Problem =
    | Unclosed | Misspelled | NoCharacter | InternalSubset | Recursion | Outside | Inside(inner: Expansion)

  /** The text that falls into these pieces. */
  function Text(e: Expansion): seq<LexChar> {
    match e
    case Last(run) => run
    case Step(run, reference, _, rest) => run + (reference + Text(rest))
    case Ends(run, reference, _, left) => run + (reference + left)
  }

  /** What stands between a delimiter and `;`. */
  function Between(reference: seq<LexChar>): string
    requires |reference| >= 2
  {
    Shown(reference[1..|reference| - 1])
  }

  function NameOf(reference: seq<LexChar>): string
    requires |reference| >= 2
  {
    Scalars(reference[1..|reference| - 1])
  }

  /** A delimiter, text without `;`, and `;`. */
  predicate Bracketed(reference: seq<LexChar>, mark: char) {
    && |reference| >= 2 && reference[0].Shown() == mark && reference[|reference| - 1].Shown() == ';'
    && ';' !in Between(reference)
  }

  predicate Hashed(s: string) { s != "" && s[0] == '#' }

  predicate ProperName(env: Context, s: string) { env.rules.IsName(s) && (env.namespaces ==> ':' !in s) }

  /** A parameter reference that is looked up: spelled well, and outside the internal subset. */
  predicate LooksUp(env: Context, reference: seq<LexChar>) {
    Bracketed(reference, '%') && ProperName(env, Between(reference)) && !env.internal
  }

  /** A name that may be replaced here. */
  predicate MayReplace(env: Context, open: set<string>, name: string) {
    && !(name in env.entities && env.entities[name].open) && env.declaring != Some(name)
    && name !in env.declarationParameters && name !in env.active && name !in open
  }

  predicate Declared(env: Context, name: string) { name in env.entities && env.entities[name].value.Some? }

  predicate Finishes(e: Expansion) { e.Last? || (e.Step? && Finishes(e.rest)) }

  /** The pieces are what they are called. */
  ghost predicate Legal(env: Context, e: Expansion, open: set<string>)
    decreases e
  {
    Unmarked(e.run) &&
    match e
    case Last(_) => true
    case Step(_, reference, part, rest) => LegalPart(env, reference, part, open) && Legal(env, rest, open)
    case Ends(_, reference, problem, left) =>
      LegalProblem(env, reference, problem, open) && (problem.Unclosed? ==> left == [])
  }

  ghost predicate LegalPart(env: Context, reference: seq<LexChar>, part: Part, open: set<string>)
    decreases part
  {
    match part
    case Number(c) =>
      && Bracketed(reference, '&') && Hashed(Between(reference))
      && exists v: nat :: IsNumber(Between(reference), v) && IsCharacter(c, v)
    case General => Bracketed(reference, '&') && ProperName(env, Between(reference))
    case Included(inner) =>
      && LooksUp(env, reference) && MayReplace(env, open, NameOf(reference)) && Declared(env, NameOf(reference))
      && Text(inner) == Plain(env.entities[NameOf(reference)].value.value)
      && Finishes(inner) && Legal(env, inner, open + {NameOf(reference)})
    case Missing =>
      LooksUp(env, reference) && MayReplace(env, open, NameOf(reference)) && NameOf(reference) !in env.entities
    case Reserved =>
      && LooksUp(env, reference) && MayReplace(env, open, NameOf(reference)) && NameOf(reference) in env.entities
      && var entity := env.entities[NameOf(reference)]; entity.value.None? && !entity.external
  }

  ghost predicate LegalProblem(env: Context, reference: seq<LexChar>, problem: Problem, open: set<string>)
    decreases problem
  {
    match problem
    case Unclosed => reference != [] && Delimiter(reference[0]) && ';' !in Shown(reference)
    case Misspelled =>
      || (Bracketed(reference, '&') && Hashed(Between(reference)) && forall v: nat :: !IsNumber(Between(reference), v))
      || (Bracketed(reference, '&') && !Hashed(Between(reference)) && !ProperName(env, Between(reference)))
      || (Bracketed(reference, '%') && !ProperName(env, Between(reference)))
    case NoCharacter =>
      && Bracketed(reference, '&') && Hashed(Between(reference))
      && exists v: nat :: IsNumber(Between(reference), v) && forall c: char :: !IsCharacter(c, v)
    case InternalSubset => Bracketed(reference, '%') && ProperName(env, Between(reference)) && env.internal
    case Recursion => LooksUp(env, reference) && !MayReplace(env, open, NameOf(reference))
    case Outside =>
      && LooksUp(env, reference) && MayReplace(env, open, NameOf(reference)) && NameOf(reference) in env.entities
      && var entity := env.entities[NameOf(reference)]; entity.value.None? && entity.external
    case Inside(inner) =>
      && LooksUp(env, reference) && MayReplace(env, open, NameOf(reference)) && Declared(env, NameOf(reference))
      && Text(inner) == Plain(env.entities[NameOf(reference)].value.value)
      && !Finishes(inner) && Legal(env, inner, open + {NameOf(reference)})
  }

  // ------------------------------------------------------------- what they give

  /** A run gives its characters, with raw line ends normalized in the literal itself. */
  function RunText(run: seq<LexChar>, normalize: bool): string {
    Scalars(if normalize then Normalize(run) else run)
  }

  /** Character references give their character, general references themselves, parameter references
      the value of the declared text. */
  function PartText(reference: seq<LexChar>, part: Part): string
    decreases part
  {
    match part
    case Number(c) => [c]
    case General => Scalars(reference)
    case Included(inner) => Value(inner, false)
    case Missing => ""
    case Reserved => ""
  }

  function Value(e: Expansion, normalize: bool): string
    decreases e
  {
    RunText(e.run, normalize) +
    match e
    case Last(_) => ""
    case Step(_, reference, part, rest) => PartText(reference, part) + Value(rest, normalize)
    case Ends(_, _, problem, _) => if problem.Inside? then Value(problem.inner, false) else ""
  }

  /** Some name was missing. */
  predicate Skips(e: Expansion)
    decreases e
  {
    match e
    case Last(_) => false
    case Step(_, _, part, rest) => part.Missing? || (part.Included? && Skips(part.inner)) || Skips(rest)
    case Ends(_, _, problem, _) => problem.Inside? && Skips(problem.inner)
  }

  /** How a text whose frame is called `name` ends. */
  function Ending(e: Expansion, name: Option<string>, normalize: bool): Stop
    decreases e
  {
    match e
    case Last(_) => Finished
    case Step(_, _, _, rest) => Ending(rest, name, normalize)
    case Ends(_, reference, problem, left) =>
      match problem
      case Unclosed => Wrong(InvalidToken)
      case Misspelled => Wrong(InvalidToken)
      case NoCharacter => Wrong(BadCharacterReference)
      case InternalSubset => Wrong(ParameterEntityReference)
      case Recursion => Wrong(RecursiveEntityReference)
      case Outside =>
        if |reference| < 2 then Finished else External(NameOf(reference), [Frame(left, name, normalize)])
      case Inside(inner) =>
        if |reference| < 2 then Finished
        else match Ending(inner, Some(NameOf(reference)), false)
          case External(wanted, frames) => External(wanted, [Frame(left, name, normalize)] + frames)
          case other => other
  }

  // ------------------------------------------------------------- what they cost

  /** The largest size a value is checked for: its length so far with the stored form of the next piece. */
  function Peak(e: Expansion, normalize: bool): nat
    decreases e
  {
    var further := match e
      case Last(_) => 0
      case Step(_, reference, part, rest) =>
        Max(PartPeak(reference, part), Len(PartText(reference, part)) + Peak(rest, normalize))
      case Ends(_, _, problem, _) => if problem.Inside? then Peak(problem.inner, false) else 0;
    Max(Len(Shown(e.run)), Len(RunText(e.run, normalize)) + further)
  }

  function PartPeak(reference: seq<LexChar>, part: Part): nat
    decreases part
  {
    match part
    case Number(c) => Len([c])
    case General => Len(Shown(reference))
    case Included(inner) => Peak(inner, false)
    case Missing => 0
    case Reserved => 0
  }

  /** One more than the deepest stack of frames, with `depth` of them below. */
  function Levels(e: Expansion, depth: nat): nat
    decreases e
  {
    match e
    case Last(_) => 0
    case Step(_, _, part, rest) => Max(PartLevels(part, depth), Levels(rest, depth))
    case Ends(_, _, problem, _) =>
      if problem.Outside? then depth + 1
      else if problem.Inside? then Max(depth + 1, Levels(problem.inner, depth + 1))
      else 0
  }

  function PartLevels(part: Part, depth: nat): nat
    decreases part
  {
    if part.Reserved? then depth + 1
    else if part.Included? then Max(depth + 1, Levels(part.inner, depth + 1))
    else 0
  }

  function Read(bytes: nat, counted: bool): seq<Charge> { if counted then [Account(bytes)] else [] }

  /** Work in its order. What is read is counted in replacement texts only; looking up a parameter
      entity and entering its text are charged. */
  function Work(env: Context, e: Expansion, counted: bool): seq<Charge>
    decreases e, 0
  {
    Read(Len(Shown(e.run)), counted) +
    match e
    case Last(_) => []
    case Step(_, reference, part, rest) =>
      Read(Len(Shown(reference)), counted) + (PartWork(env, reference, part) + Work(env, rest, counted))
    case Ends(_, reference, problem, _) =>
      if problem.Unclosed? then []
      else
        Read(Len(Shown(reference)), counted) +
        if problem.Recursion? || problem.Outside? then [Lookup(env, reference)]
        else if problem.Inside? && |reference| >= 2 then
          [Lookup(env, reference)] + Entering(env, reference, problem.inner)
        else []
  }

  function PartWork(env: Context, reference: seq<LexChar>, part: Part): seq<Charge>
    decreases part
  {
    match part
    case Number(_) => []
    case General => []
    case Included(inner) => if |reference| < 2 then [] else [Lookup(env, reference)] + Entering(env, reference, inner)
    case Missing => [Lookup(env, reference)]
    case Reserved => [Lookup(env, reference)]
  }

  function Lookup(env: Context, reference: seq<LexChar>): Charge {
    EntityValues.Expansion(Len(Shown(reference)) + env.frameBytes)
  }

  function Entering(env: Context, reference: seq<LexChar>, inner: Expansion): seq<Charge>
    requires |reference| >= 2
    decreases inner, 1
  {
    if !Declared(env, NameOf(reference)) then []
    else [EntityValues.Expansion(Len(env.entities[NameOf(reference)].value.value))] + Work(env, inner, true)
  }

  // ------------------------------------------------------------ reading the text

  /** A name and a number hold no `;`, so the first one behind a delimiter closes the reference. */
  lemma SemicolonThere(text: string, at: nat)
    requires at < |text| && text[at] == ';' && forall i: nat | i < at :: text[i] != ';'
    ensures References.Semicolon(text) == Some(at)
  {
    References.SemicolonAt(text, at);
  }

  lemma BracketThere(reference: seq<LexChar>, mark: char, left: seq<LexChar>)
    requires Bracketed(reference, mark) && (mark == '&' || mark == '%')
    ensures StartsReference(reference + left) && ReferenceEnd(reference + left) == Some(|reference| - 1)
    ensures (reference + left)[..|reference|] == reference && (reference + left)[|reference|..] == left
    ensures Delimiter(reference[0]) && IsParameter(reference) == (mark == '%')
    ensures Shown(Inner(reference)) == Between(reference) && Scalars(Inner(reference)) == NameOf(reference)
  {
    var all, n := reference + left, |reference| - 1;
    assert Shown(all)[n] == reference[n].Shown();
    forall i: nat | i < n ensures Shown(all)[i] != ';' {
      assert Shown(all)[i] == reference[i].Shown();
      if i > 0 { assert Between(reference)[i - 1] == reference[1..n][i - 1].Shown(); }
    }
    SemicolonThere(Shown(all), n);
  }

  lemma NoBracket(text: seq<LexChar>)
    requires StartsReference(text)
    ensures ReferenceEnd(text).None? <==> ';' !in Shown(text)
  {}

  /** A reference is bracketed by its delimiter and the first `;`. */
  lemma BracketFound(text: seq<LexChar>)
    requires StartsReference(text) && ReferenceEnd(text).Some?
    ensures
      var end := ReferenceEnd(text).value;
      Bracketed(text[..end + 1], '&') || Bracketed(text[..end + 1], '%')
  {
    var end := ReferenceEnd(text).value;
    var reference := text[..end + 1];
    assert reference[1..|reference| - 1] == text[1..end];
    assert reference[0] == text[0] && reference[end] == text[end] && Shown(text)[end] == text[end].Shown();
    forall i: nat | i < |Between(reference)| ensures Between(reference)[i] != ';' {
      assert Between(reference)[i] == text[1..end][i].Shown() == Shown(text)[i + 1];
    }
  }

  // --------------------------------------------------------------- one reference

  /** What a legal part stands for. */
  function PartMeant(env: Context, reference: seq<LexChar>, part: Part, depth: nat): Meaning {
    Meaning(PartText(reference, part), part.Missing? || (part.Included? && Skips(part.inner)),
            PartPeak(reference, part), PartLevels(part, depth), PartWork(env, reference, part), Finished)
  }

  function Meant(env: Context, e: Expansion, name: Option<string>, normalize: bool, depth: nat): Meaning {
    Meaning(Value(e, normalize), Skips(e), Peak(e, normalize), Levels(e, depth), Work(env, e, name.Some?),
            Ending(e, name, normalize))
  }

  lemma SameName(env: Context, reference: seq<LexChar>)
    requires |reference| >= 2
    ensures NamesEntity(env, Between(reference)) <==> ProperName(env, Between(reference))
    ensures Between(reference) != "" ==> Between(reference)[0] == reference[1].Shown()
    ensures Hashed(Between(reference)) ==> !ProperName(env, Between(reference))
  {
    hide NameRules.IsNameStart, NameRules.IsNameChar;
    if Hashed(Between(reference)) && env.rules.IsNameStart('#') { HashNoName(env.rules); }
  }

  lemma HashNoName(rules: NameRules)
    ensures !rules.IsNameStart('#')
  {}

  lemma MayReplaceExactly(env: Context, open: set<string>, name: string)
    ensures MayReplace(env, open, name) <==> !env.Blocked(name) && name !in open
  {}

  /** The reference's own meaning, by its shape. */
  lemma ReferenceByShape(env: Context, reference: seq<LexChar>, open: set<string>)
    requires Bracketed(reference, '&') || Bracketed(reference, '%')
    ensures
      var m := EntityValues.Reference(env, reference, open);
      && (Bracketed(reference, '&') && Hashed(Between(reference)) ==> m == EntityValues.Numeric(Between(reference)))
      && (!(Bracketed(reference, '&') && Hashed(Between(reference))) ==>
           if !ProperName(env, Between(reference)) then m == Stopped(Wrong(InvalidToken))
           else if Bracketed(reference, '&') then m == Literal(reference, false)
           else if env.internal then m == Stopped(Wrong(ParameterEntityReference))
           else m == Then(Charged(Lookup(env, reference)), Parameter(env, NameOf(reference), open)))
  {
    hide Parameter, EntityValues.Numeric, Len, Scalars, NameRules.IsName;
    SameName(env, reference);
    BracketThere(reference, if Bracketed(reference, '&') then '&' else '%', []);
  }

  lemma ParameterByShape(env: Context, name: string, open: set<string>)
    ensures
      var m := Parameter(env, name, open);
      if !MayReplace(env, open, name) then m == Stopped(Wrong(RecursiveEntityReference))
      else if name !in env.entities then m == NOTHING.(skipped := true)
      else
        m == Then(NOTHING.(nesting := |open| + 1),
                  match env.entities[name].value
                  case None => if env.entities[name].external then Stopped(External(name, [])) else NOTHING
                  case Some(value) =>
                    Then(Charged(EntityValues.Expansion(Len(value))), Replace(env, Entered(name, value), open + {name})))
  {
    hide Replace, Len;
    MayReplaceExactly(env, open, name);
  }

  lemma NumericByShape(s: string)
    requires Hashed(s)
    ensures
      match EntityValues.Numeric(s).stop
      case Finished =>
        exists c: char, v: nat :: IsNumber(s, v) && IsCharacter(c, v) && EntityValues.Numeric(s) == Literal([Raw(c)], false)
      case External(_, _) => false
      case Wrong(kind) =>
        && EntityValues.Numeric(s) == Stopped(Wrong(kind))
        && if kind == BadCharacterReference then exists v: nat :: IsNumber(s, v) && forall c: char :: !IsCharacter(c, v)
           else kind == InvalidToken && forall v: nat :: !IsNumber(s, v)
    ensures forall v: nat, w: nat | IsNumber(s, v) && IsNumber(s, w) :: v == w
  {
    hide IsNumber, References.CharacterReference;
    NumericExactly(s);
  }

  /** A charge, or a level of the stack, in front of a meaning. */
  lemma ThenCharged(charge: Charge, m: Meaning)
    ensures Then(Charged(charge), m) == m.(charges := [charge] + m.charges)
  {
    assert "" + m.value == m.value && Len("") == 0;
  }

  lemma ThenLevel(level: nat, m: Meaning)
    ensures Then(NOTHING.(nesting := level), m) == m.(nesting := Max(level, m.nesting))
  {
    assert "" + m.value == m.value && Len("") == 0 && [] + m.charges == m.charges;
  }

  lemma ThenRead(frame: Frame, bytes: nat, m: Meaning)
    ensures Then(Counted(frame, bytes), m) == m.(charges := Read(bytes, frame.name.Some?) + m.charges)
  {
    if frame.name.Some? {
      ThenCharged(Account(bytes), m);
    } else {
      NothingFirst(m);
      assert [] + m.charges == m.charges;
    }
  }

  lemma PartMeans(env: Context, reference: seq<LexChar>, part: Part, open: set<string>)
    requires LegalPart(env, reference, part, open)
    requires part.Included? ==>
      Replace(env, Entered(NameOf(reference), env.entities[NameOf(reference)].value.value), open + {NameOf(reference)})
      == Meant(env, part.inner, Some(NameOf(reference)), false, |open| + 1)
    ensures |reference| >= 2 && EntityValues.Reference(env, reference, open) == PartMeant(env, reference, part, |open|)
  {
    hide Replace, Parameter, Len, Shown, Scalars, Legal, IsNumber, EntityValues.Numeric, EntityValues.Reference;
    hide Value, Skips, Peak, Levels, Work, NameRules.IsName, MayReplace, Then;
    ReferenceByShape(env, reference, open);
    match part
    case Number(c) =>
      NumericByShape(Between(reference));
      SingleRaw(c);
    case General => SameName(env, reference);
    case Missing =>
      ParameterByShape(env, NameOf(reference), open);
      ThenCharged(Lookup(env, reference), Parameter(env, NameOf(reference), open));
    case Reserved =>
      ParameterByShape(env, NameOf(reference), open);
      ThenLevel(|open| + 1, NOTHING);
      ThenCharged(Lookup(env, reference), Parameter(env, NameOf(reference), open));
    case Included(inner) =>
      ParameterByShape(env, NameOf(reference), open);
      EntryMeans(env, reference, inner, open);
      EndingFinished(inner, Some(NameOf(reference)), false);
  }

  lemma SingleRaw(c: char)
    ensures Literal([Raw(c)], false) == Meaning([c], false, Len([c]), 0, [], Finished)
  {
    assert Shown([Raw(c)]) == [c] && Scalars([Raw(c)]) == [c];
  }

  lemma {:induction false} EndingFinished(e: Expansion, name: Option<string>, normalize: bool)
    ensures Finishes(e) ==> Ending(e, name, normalize) == Finished
  {
    if e.Step? { EndingFinished(e.rest, name, normalize); }
  }

  /** Looking a name up and entering its text. */
  lemma EntryMeans(env: Context, reference: seq<LexChar>, inner: Expansion, open: set<string>)
    requires |reference| >= 2 && Declared(env, NameOf(reference)) && MayReplace(env, open, NameOf(reference))
    requires
      Replace(env, Entered(NameOf(reference), env.entities[NameOf(reference)].value.value), open + {NameOf(reference)})
      == Meant(env, inner, Some(NameOf(reference)), false, |open| + 1)
    ensures Then(Charged(Lookup(env, reference)), Parameter(env, NameOf(reference), open))
         == Meaning(Value(inner, false), Skips(inner), Peak(inner, false), Max(|open| + 1, Levels(inner, |open| + 1)),
                    [Lookup(env, reference)] + Entering(env, reference, inner),
                    Ending(inner, Some(NameOf(reference)), false))
  {
    hide Replace, Parameter, Len, Shown, Scalars, Value, Skips, Peak, Levels, Work, Ending, MayReplace, Then;
    var name := NameOf(reference);
    var value, m := env.entities[name].value.value, Meant(env, inner, Some(name), false, |open| + 1);
    ParameterByShape(env, name, open);
    ThenCharged(EntityValues.Expansion(Len(value)), m);
    ThenLevel(|open| + 1, Then(Charged(EntityValues.Expansion(Len(value))), m));
    ThenCharged(Lookup(env, reference), Parameter(env, name, open));
  }

  /** What a halted text has of a reference that is closed, in front of the unread rest. */
  function ProblemMeant(env: Context, e: Expansion, name: Option<string>, normalize: bool, depth: nat): Meaning
    requires e.Ends? && |e.reference| >= 2
  {
    var inside := e.problem.Inside?;
    Meaning(if inside then Value(e.problem.inner, false) else "", inside && Skips(e.problem.inner),
            if inside then Peak(e.problem.inner, false) else 0, Levels(e, depth),
            if e.problem.Recursion? || e.problem.Outside? then [Lookup(env, e.reference)]
            else if inside then [Lookup(env, e.reference)] + Entering(env, e.reference, e.problem.inner)
            else [],
            Ending(e, name, normalize))
  }

  lemma ProblemMeans(env: Context, e: Expansion, after: Frame, open: set<string>)
    requires e.Ends? && !e.problem.Unclosed? && LegalProblem(env, e.reference, e.problem, open) && after.rest == e.left
    requires e.problem.Inside? ==>
      Replace(env, Entered(NameOf(e.reference), env.entities[NameOf(e.reference)].value.value),
              open + {NameOf(e.reference)})
      == Meant(env, e.problem.inner, Some(NameOf(e.reference)), false, |open| + 1)
    ensures |e.reference| >= 2 && Prepend([after], EntityValues.Reference(env, e.reference, open))
         == ProblemMeant(env, e, after.name, after.normalize, |open|)
  {
    hide Replace, Parameter, Len, Shown, Scalars, Legal, IsNumber, EntityValues.Numeric, EntityValues.Reference;
    hide Value, Skips, Peak, Work, NameRules.IsName, MayReplace, Then;
    var reference := e.reference;
    ReferenceByShape(env, reference, open);
    SameName(env, reference);
    match e.problem
    case Misspelled => if Bracketed(reference, '&') && Hashed(Between(reference)) { NumericByShape(Between(reference)); }
    case NoCharacter => NumericByShape(Between(reference));
    case InternalSubset =>
    case Recursion =>
      ParameterByShape(env, NameOf(reference), open);
      ThenCharged(Lookup(env, reference), Parameter(env, NameOf(reference), open));
    case Outside =>
      ParameterByShape(env, NameOf(reference), open);
      ThenLevel(|open| + 1, Stopped(External(NameOf(reference), [])));
      ThenCharged(Lookup(env, reference), Parameter(env, NameOf(reference), open));
      assert [after] + [] == [after];
    case Inside(inner) =>
      EntryMeans(env, reference, inner, open);
  }

  // --------------------------------------------------------------- a whole text

  lemma {:induction false} EndingHalts(e: Expansion, name: Option<string>, normalize: bool, env: Context,
                                       open: set<string>)
    requires Legal(env, e, open)
    ensures Ending(e, name, normalize) == Finished <==> Finishes(e)
    decreases e
  {
    hide IsNumber, MayReplace, Scalars, Shown, NameRules.IsName;
    match e
    case Last(_) =>
    case Step(_, _, _, rest) => EndingHalts(rest, name, normalize, env, open);
    case Ends(_, reference, problem, _) =>
      if problem.Inside? {
        EndingHalts(problem.inner, Some(NameOf(reference)), false, env, open + {NameOf(reference)});
      }
  }

  /** A run in front of what follows it. */
  lemma ThenRun(run: seq<LexChar>, normalize: bool, m: Meaning)
    ensures Then(Literal(run, normalize), m)
         == Meaning(RunText(run, normalize) + m.value, m.skipped,
                    Max(Len(Shown(run)), Len(RunText(run, normalize)) + m.peak), m.nesting, m.charges, m.stop)
  {
    assert [] + m.charges == m.charges;
  }

  /** A text that is read to pieces means what the pieces mean. */
  lemma {:induction false} Composes(env: Context, e: Expansion, frame: Frame, open: set<string>)
    requires Legal(env, e, open) && Text(e) == frame.rest
    ensures Replace(env, frame, open) == Meant(env, e, frame.name, frame.normalize, |open|)
    decreases e, 1
  {
    hide Replace, Len, Shown, Scalars, Normalize, Legal, Value, Skips, Peak, Levels, Work, Ending, Then, Literal;
    hide AtReference, RunText, Delimiter, StartsReference, ReferenceEnd, LegalPart, LegalProblem;
    LegalParts(env, e, open);
    AtHead(env, frame, open);
    match e
    case Last(run) =>
      assert run + [] == run;
      RunThere(run, []);
      ThenRun(run, frame.normalize, NOTHING);
      ThenRead(frame, Len(Shown(run)), Then(Literal(run, frame.normalize), NOTHING));
      LastMeant(env, run, frame.name, frame.normalize, |open|);
    case Step(_, _, _, _) => StepComposes(env, e, frame, open);
    case Ends(_, _, _, _) => EndsComposes(env, e, frame, open);
  }

  lemma LegalParts(env: Context, e: Expansion, open: set<string>)
    requires Legal(env, e, open)
    ensures Unmarked(e.run)
    ensures e.Step? ==> LegalPart(env, e.reference, e.part, open) && Legal(env, e.rest, open)
    ensures e.Ends? ==> LegalProblem(env, e.reference, e.problem, open) && (e.problem.Unclosed? ==> e.left == [])
  {}

  lemma LastMeant(env: Context, run: seq<LexChar>, name: Option<string>, normalize: bool, depth: nat)
    ensures Meant(env, Last(run), name, normalize, depth)
         == Meaning(RunText(run, normalize) + "", false, Max(Len(Shown(run)), Len(RunText(run, normalize)) + 0), 0,
                    Read(Len(Shown(run)), name.Some?) + [], Finished)
  {}

  /** Everything behind a run that a reference follows. */
  lemma BehindRun(env: Context, run: seq<LexChar>, reference: seq<LexChar>, left: seq<LexChar>, frame: Frame,
                  open: set<string>, ahead: Meaning)
    requires Unmarked(run) && reference != [] && Delimiter(reference[0]) && frame.rest == run + (reference + left)
    requires StartsReference(reference + left)
    requires ahead == AtReference(env, frame.(rest := reference + left), open)
    ensures Replace(env, frame, open)
         == Meaning(RunText(run, frame.normalize) + ahead.value, ahead.skipped,
                    Max(Len(Shown(run)), Len(RunText(run, frame.normalize)) + ahead.peak), ahead.nesting,
                    Read(Len(Shown(run)), frame.name.Some?) + ahead.charges, ahead.stop)
  {
    hide Replace, Len, Shown, Scalars, Normalize, Then, Literal, AtReference, RunText, Delimiter, StartsReference;
    AtHead(env, frame, open);
    assert (reference + left)[0] == reference[0];
    RunThere(run, reference + left);
    assert reference + left != [];
    ThenRun(run, frame.normalize, ahead);
    ThenRead(frame, Len(Shown(run)), Then(Literal(run, frame.normalize), ahead));
  }

  /** A closed reference in front of the rest of its frame. */
  lemma AtBracket(env: Context, reference: seq<LexChar>, mark: char, frame: Frame, open: set<string>)
    requires Bracketed(reference, mark) && (mark == '&' || mark == '%') && reference <= frame.rest
    ensures StartsReference(frame.rest)
    ensures
      var after := frame.(rest := frame.rest[|reference|..]);
      var m := Then(Prepend([after], EntityValues.Reference(env, reference, open)), Replace(env, after, open));
      AtReference(env, frame, open) == m.(charges := Read(Len(Shown(reference)), frame.name.Some?) + m.charges)
  {
    hide Replace, Len, Shown, Scalars, Then, EntityValues.Reference, Prepend, ReferenceEnd, AtReference;
    assert frame.rest == reference + frame.rest[|reference|..];
    BracketThere(reference, mark, frame.rest[|reference|..]);
    AtDelimiter(env, frame, open);
    var after := frame.(rest := frame.rest[|reference|..]);
    ThenRead(frame, Len(Shown(reference)),
             Then(Prepend([after], EntityValues.Reference(env, reference, open)), Replace(env, after, open)));
  }

  lemma {:induction false} StepComposes(env: Context, e: Expansion, frame: Frame, open: set<string>)
    requires e.Step? && Legal(env, e, open) && Text(e) == frame.rest
    ensures Replace(env, frame, open) == Meant(env, e, frame.name, frame.normalize, |open|)
    decreases e, 0
  {
    hide Replace, Len, Shown, Scalars, Normalize, Legal, Value, Skips, Peak, Levels, Work, Ending, Then, Literal;
    hide AtReference, RunText, Delimiter, StartsReference, ReferenceEnd, LegalPart, Bracketed, PartMeant, Prepend;
    hide MayReplace, Declared;
    LegalParts(env, e, open);
    PartBracketed(env, e.reference, e.part, open);
    var mark := if Bracketed(e.reference, '&') then '&' else '%';
    var here := frame.(rest := e.reference + Text(e.rest));
    var after := frame.(rest := Text(e.rest));
    assert here.rest[|e.reference|..] == Text(e.rest);
    BracketThere(e.reference, mark, Text(e.rest));
    AtBracket(env, e.reference, mark, here, open);
    BehindRun(env, e.run, e.reference, Text(e.rest), frame, open, AtReference(env, here, open));
    Composes(env, e.rest, after, open);
    if e.part.Included? {
      IncludedInner(env, e.reference, e.part, open);
      var name := NameOf(e.reference);
      Composes(env, e.part.inner, Entered(name, env.entities[name].value.value), open + {name});
    }
    PartMeans(env, e.reference, e.part, open);
    StepMeant(env, e, frame.name, frame.normalize, |open|, after);
  }

  lemma PartBracketed(env: Context, reference: seq<LexChar>, part: Part, open: set<string>)
    requires LegalPart(env, reference, part, open)
    ensures Bracketed(reference, '&') || Bracketed(reference, '%')
  {}

  lemma IncludedInner(env: Context, reference: seq<LexChar>, part: Part, open: set<string>)
    requires part.Included? && LegalPart(env, reference, part, open)
    ensures |reference| >= 2 && Declared(env, NameOf(reference)) && MayReplace(env, open, NameOf(reference))
    ensures Legal(env, part.inner, open + {NameOf(reference)})
    ensures Text(part.inner) == Plain(env.entities[NameOf(reference)].value.value) && NameOf(reference) !in open
    ensures |open + {NameOf(reference)}| == |open| + 1
  {}

  /** A finished reference and the rest, put together. */
  lemma StepMeant(env: Context, e: Expansion, name: Option<string>, normalize: bool, depth: nat, after: Frame)
    requires e.Step? && |e.reference| >= 2
    ensures
      var part, rest := PartMeant(env, e.reference, e.part, depth), Meant(env, e.rest, name, normalize, depth);
      var m := Then(Prepend([after], part), rest);
      Meant(env, e, name, normalize, depth)
         == Meaning(RunText(e.run, normalize) + m.value, m.skipped,
                    Max(Len(Shown(e.run)), Len(RunText(e.run, normalize)) + m.peak), m.nesting,
                    Read(Len(Shown(e.run)), name.Some?) + (Read(Len(Shown(e.reference)), name.Some?) + m.charges),
                    m.stop)
  {
    hide Len, Shown, Scalars, Normalize, RunText;
  }

  lemma {:induction false} EndsComposes(env: Context, e: Expansion, frame: Frame, open: set<string>)
    requires e.Ends? && Legal(env, e, open) && Text(e) == frame.rest
    ensures Replace(env, frame, open) == Meant(env, e, frame.name, frame.normalize, |open|)
    decreases e, 0
  {
    hide Replace, Len, Shown, Scalars, Normalize, Legal, Value, Skips, Peak, Levels, Work, Ending, Then, Literal;
    hide AtReference, RunText, Delimiter, StartsReference, ReferenceEnd, LegalProblem, Bracketed, ProblemMeant, Prepend;
    hide MayReplace, Declared;
    LegalParts(env, e, open);
    var here := frame.(rest := e.reference + e.left);
    var after := frame.(rest := e.left);
    if e.problem.Unclosed? {
      assert e.reference + [] == e.reference;
      UnclosedMeans(env, e, here, open);
      BehindRun(env, e.run, e.reference, e.left, frame, open, AtReference(env, here, open));
      UnclosedMeant(env, e, frame.name, frame.normalize, |open|);
    } else {
      ProblemBracketed(env, e.reference, e.problem, open);
      var mark := if Bracketed(e.reference, '&') then '&' else '%';
      assert here.rest[|e.reference|..] == e.left;
      BracketThere(e.reference, mark, e.left);
      AtBracket(env, e.reference, mark, here, open);
      BehindRun(env, e.run, e.reference, e.left, frame, open, AtReference(env, here, open));
      if e.problem.Inside? {
        InsideInner(env, e.reference, e.problem, open);
        var name := NameOf(e.reference);
        Composes(env, e.problem.inner, Entered(name, env.entities[name].value.value), open + {name});
      }
      ProblemMeans(env, e, after, open);
      EndingHalts(e, frame.name, frame.normalize, env, open);
      EndsMeant(env, e, frame.name, frame.normalize, |open|, Replace(env, after, open));
    }
  }

  lemma ProblemBracketed(env: Context, reference: seq<LexChar>, problem: Problem, open: set<string>)
    requires LegalProblem(env, reference, problem, open) && !problem.Unclosed?
    ensures Bracketed(reference, '&') || Bracketed(reference, '%')
  {}

  lemma InsideInner(env: Context, reference: seq<LexChar>, problem: Problem, open: set<string>)
    requires problem.Inside? && LegalProblem(env, reference, problem, open)
    ensures |reference| >= 2 && Declared(env, NameOf(reference)) && MayReplace(env, open, NameOf(reference))
    ensures Legal(env, problem.inner, open + {NameOf(reference)})
    ensures Text(problem.inner) == Plain(env.entities[NameOf(reference)].value.value) && NameOf(reference) !in open
    ensures |open + {NameOf(reference)}| == |open| + 1
  {}

  lemma UnclosedMeans(env: Context, e: Expansion, here: Frame, open: set<string>)
    requires e.Ends? && e.problem.Unclosed? && LegalProblem(env, e.reference, e.problem, open)
    requires here.rest == e.reference
    ensures e.reference != [] && Delimiter(e.reference[0]) && StartsReference(here.rest)
    ensures AtReference(env, here, open) == Stopped(Wrong(InvalidToken))
  {
    NoBracket(here.rest);
  }

  lemma UnclosedMeant(env: Context, e: Expansion, name: Option<string>, normalize: bool, depth: nat)
    requires e.Ends? && e.problem.Unclosed?
    ensures Meant(env, e, name, normalize, depth)
         == Meaning(RunText(e.run, normalize) + "", false, Max(Len(Shown(e.run)), Len(RunText(e.run, normalize)) + 0), 0,
                    Read(Len(Shown(e.run)), name.Some?) + [], Wrong(InvalidToken))
  {}

  lemma EndsMeant(env: Context, e: Expansion, name: Option<string>, normalize: bool, depth: nat, rest: Meaning)
    requires e.Ends? && !e.problem.Unclosed? && |e.reference| >= 2 && Ending(e, name, normalize) != Finished
    ensures
      var m := Then(ProblemMeant(env, e, name, normalize, depth), rest);
      Meant(env, e, name, normalize, depth)
         == Meaning(RunText(e.run, normalize) + m.value, m.skipped,
                    Max(Len(Shown(e.run)), Len(RunText(e.run, normalize)) + m.peak), m.nesting,
                    Read(Len(Shown(e.run)), name.Some?) + (Read(Len(Shown(e.reference)), name.Some?) + m.charges),
                    m.stop)
  {
    hide Len, Shown, Scalars, Normalize, RunText;
  }

  // ---------------------------------------------------------------- every text

  /** Every text falls into pieces, whatever the table holds. */
  lemma {:induction false} Falls(env: Context, text: seq<LexChar>, open: set<string>) returns (e: Expansion)
    ensures Legal(env, e, open) && Text(e) == text
    decreases EntityValues.Free(env, open), |text|, 1
  {
    hide Len, Shown, Scalars, Legal, LegalPart, LegalProblem, Bracketed, EntityValues.Free, Unmarked, Text;
    hide StartsReference, ReferenceEnd, RefStart;
    var n := RefStart(Shown(text));
    RunFound(text);
    if n == |text| {
      assert text[..n] == text;
      LegalLast(env, text, open);
      e := Last(text);
    } else {
      FirstReference(text);
      var at := text[n..];
      SplitText(text, n, 0);
      NoBracket(at);
      if ReferenceEnd(at).None? {
        LegalUnclosed(env, text[..n], at, open);
        e := Ends(text[..n], at, Unclosed, []);
      } else {
        var end := ReferenceEnd(at).value;
        BracketFound(at);
        SplitText(text, n, end + 1);
        e := FallsApart(env, text[..n], at[..end + 1], at[end + 1..], open);
      }
    }
  }

  lemma SplitText(text: seq<LexChar>, n: nat, k: nat)
    requires n + k <= |text|
    ensures text[..n] + (text[n..][..k] + text[n..][k..]) == text && text[..n] + text[n..] == text
    ensures |text[n..][..k]| + |text[n..][k..]| == |text| - n
  {}

  lemma RunFound(text: seq<LexChar>)
    ensures Unmarked(text[..RefStart(Shown(text))])
  {
    forall i: nat | i < RefStart(Shown(text)) ensures !Delimiter(text[..RefStart(Shown(text))][i]) {
      assert Shown(text)[i] == text[i].Shown();
    }
  }

  lemma LegalLast(env: Context, run: seq<LexChar>, open: set<string>)
    requires Unmarked(run)
    ensures Legal(env, Last(run), open) && Text(Last(run)) == run
  {}

  lemma LegalUnclosed(env: Context, run: seq<LexChar>, reference: seq<LexChar>, open: set<string>)
    requires Unmarked(run) && StartsReference(reference) && ';' !in Shown(reference)
    ensures Legal(env, Ends(run, reference, Unclosed, []), open)
    ensures Text(Ends(run, reference, Unclosed, [])) == run + reference
  {
    assert reference + [] == reference;
  }

  /** A closed reference is a part or a problem. */
  lemma {:induction false} FallsApart(env: Context, run: seq<LexChar>, reference: seq<LexChar>, left: seq<LexChar>,
                                      open: set<string>)
    returns (e: Expansion)
    requires Unmarked(run) && (Bracketed(reference, '&') || Bracketed(reference, '%'))
    ensures Legal(env, e, open) && Text(e) == run + (reference + left)
    decreases EntityValues.Free(env, open), |reference| + |left|, 0
  {
    hide Len, Shown, Scalars, Legal, LegalPart, LegalProblem, Bracketed, EntityValues.Free, EntityValues.Reference;
    hide IsNumber, MayReplace, NameRules.IsName, Text, Plain;
    BracketLong(reference);
    var part, problem, enters := Kind(env, reference, open);
    if enters {
      var name := NameOf(reference);
      EntersLower(env, reference, open);
      var inner := Falls(env, Plain(env.entities[name].value.value), open + {name});
      part, problem := Included(inner), Inside(inner);
      EntryLegal(env, reference, inner, open);
      if Finishes(inner) { problem := Unclosed; }
    }
    if problem.Unclosed? {
      var rest := Falls(env, left, open);
      e := Step(run, reference, part, rest);
      StepLegal(env, run, reference, part, rest, open);
    } else {
      e := Ends(run, reference, problem, left);
      EndsLegal(env, run, reference, problem, left, open);
    }
  }

  lemma BracketLong(reference: seq<LexChar>)
    requires Bracketed(reference, '&') || Bracketed(reference, '%')
    ensures |reference| >= 2
  {}

  lemma EntersLower(env: Context, reference: seq<LexChar>, open: set<string>)
    requires |reference| >= 2 && MayReplace(env, open, NameOf(reference)) && Declared(env, NameOf(reference))
    ensures EntityValues.Free(env, open + {NameOf(reference)}) < EntityValues.Free(env, open)
  {
    Opens(env, open, NameOf(reference));
  }

  /** What a closed reference is: a part, a problem (`Unclosed` for none), or a name to be entered. */
  lemma Kind(env: Context, reference: seq<LexChar>, open: set<string>)
    returns (part: Part, problem: Problem, enters: bool)
    requires |reference| >= 2 && (Bracketed(reference, '&') || Bracketed(reference, '%'))
    ensures
      if enters then
        && LooksUp(env, reference) && MayReplace(env, open, NameOf(reference)) && Declared(env, NameOf(reference))
        && problem.Unclosed?
      else if problem.Unclosed? then LegalPart(env, reference, part, open)
      else LegalProblem(env, reference, problem, open)
  {
    hide Shown, Scalars, IsNumber, MayReplace, NameRules.IsName, Legal;
    var s, name := Between(reference), NameOf(reference);
    part, problem, enters := General, Unclosed, false;
    if Bracketed(reference, '&') && Hashed(s) {
      if c: char, v: nat :| IsNumber(s, v) && IsCharacter(c, v) {
        part := Number(c);
      } else if v: nat :| IsNumber(s, v) {
        problem := NoCharacter;
        assert forall c: char :: !IsCharacter(c, v);
      } else {
        problem := Misspelled;
      }
    } else if !ProperName(env, s) {
      problem := Misspelled;
    } else if Bracketed(reference, '%') && !Bracketed(reference, '&') {
      if env.internal { problem := InternalSubset; }
      else if !MayReplace(env, open, name) { problem := Recursion; }
      else if name !in env.entities { part := Missing; }
      else if env.entities[name].value.Some? { enters := true; }
      else if env.entities[name].external { problem := Outside; }
      else { part := Reserved; }
    }
  }

  lemma EntryLegal(env: Context, reference: seq<LexChar>, inner: Expansion, open: set<string>)
    requires LooksUp(env, reference) && MayReplace(env, open, NameOf(reference)) && Declared(env, NameOf(reference))
    requires Legal(env, inner, open + {NameOf(reference)})
    requires Text(inner) == Plain(env.entities[NameOf(reference)].value.value)
    ensures if Finishes(inner) then LegalPart(env, reference, Included(inner), open)
            else LegalProblem(env, reference, Inside(inner), open)
  {
    hide Legal, MayReplace;
  }

  lemma StepLegal(env: Context, run: seq<LexChar>, reference: seq<LexChar>, part: Part, rest: Expansion,
                  open: set<string>)
    requires Unmarked(run) && LegalPart(env, reference, part, open) && Legal(env, rest, open)
    ensures Legal(env, Step(run, reference, part, rest), open)
    ensures Text(Step(run, reference, part, rest)) == run + (reference + Text(rest))
  {
    hide LegalPart;
  }

  lemma EndsLegal(env: Context, run: seq<LexChar>, reference: seq<LexChar>, problem: Problem, left: seq<LexChar>,
                  open: set<string>)
    requires Unmarked(run) && LegalProblem(env, reference, problem, open) && !problem.Unclosed?
    ensures Legal(env, Ends(run, reference, problem, left), open)
    ensures Text(Ends(run, reference, problem, left)) == run + (reference + left)
  {
    hide LegalProblem;
  }

  // ---------------------------------------------------------------- the theorem

  /** The text of a value, fallen into its pieces. */
  ghost predicate Expands(env: Context, raw: seq<LexChar>, e: Expansion) { Legal(env, e, {}) && Text(e) == raw }

  /** Every size, every depth and all the work are allowed; saving an unfinished value is work, too. */
  predicate Affordable(env: Context, e: Expansion, normalize: bool) {
    && Peak(e, normalize) <= env.maxBytes
    && (Levels(e, 0) == 0 || Levels(e, 0) - 1 + env.outerDepth <= env.maxDepth)
    && var all := Work(env, e, false) + Saving(env, Ending(e, None, normalize));
       forall i: nat | 1 <= i <= |all| :: env.allows(all[..i])
  }

  /** What is unfinished has to be kept. */
  function Saving(env: Context, stop: Stop): seq<Charge> {
    match stop
    case External(_, frames) => SavingCharges(env, frames)
    case _ => []
  }

  /** What a value is, exactly, for every table: its text falls into pieces in some way, and however it
      does, the value is what the pieces give when the limits allow it, and a limit's error when not. */
  lemma ValueExactly(env: Context, raw: seq<LexChar>, normalize: bool)
    ensures exists e :: Expands(env, raw, e)
    ensures forall e | Expands(env, raw, e) ::
      BuildResult(env, Replace(env, Frame(raw, None, normalize), {})) ==
        if !Affordable(env, e, normalize) then Failure(LimitExceeded)
        else match Ending(e, None, normalize)
          case Finished => Success(Complete(Value(e, normalize), Skips(e)))
          case Wrong(kind) => Failure(kind)
          case External(name, frames) => Success(Pending(Value(e, normalize), Skips(e), frames, name))
  {
    hide Replace, Legal, Text, Value, Skips, Peak, Levels, Work, Ending, Permitted;
    var found := Falls(env, raw, {});
    assert Expands(env, raw, found);
    forall e | Expands(env, raw, e)
      ensures BuildResult(env, Replace(env, Frame(raw, None, normalize), {})) ==
        if !Affordable(env, e, normalize) then Failure(LimitExceeded)
        else match Ending(e, None, normalize)
          case Finished => Success(Complete(Value(e, normalize), Skips(e)))
          case Wrong(kind) => Failure(kind)
          case External(name, frames) => Success(Pending(Value(e, normalize), Skips(e), frames, name))
    {
      Composes(env, e, Frame(raw, None, normalize), {});
      AffordableFits(env, e, normalize);
    }
  }

  lemma AffordableFits(env: Context, e: Expansion, normalize: bool)
    ensures Fits(env, Meant(env, e, None, normalize, 0)) <==> Affordable(env, e, normalize)
  {
    hide Value, Skips, Peak, Levels, Work, Ending;
    var m := Meant(env, e, None, normalize, 0);
    var saving := Saving(env, m.stop);
    assert AllCharges(env, m) == m.charges + saving;
    if Permitted(env, m.charges + saving) { PermittedPrefix(env, m.charges, saving); }
  }

  /** A literal without references gives its characters with their line ends normalized. */
  lemma PlainValue(env: Context, raw: seq<LexChar>, normalize: bool)
    requires Unmarked(raw)
    ensures BuildResult(env, Replace(env, Frame(raw, None, normalize), {})) ==
      if Len(Shown(raw)) > env.maxBytes then Failure(LimitExceeded)
      else Success(Complete(Scalars(if normalize then Normalize(raw) else raw), false))
  {
    hide Replace, Len, Scalars, Normalize;
    var e := Last(raw);
    assert Expands(env, raw, e);
    ValueExactly(env, raw, normalize);
    DecodedShorter(raw, normalize);
    assert RunText(raw, normalize) + "" == RunText(raw, normalize);
    assert Work(env, e, false) == [];
  }
}
