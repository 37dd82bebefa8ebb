/** The replacement text of entity values (dtd.rs): what it is, and the frame stack that builds it. */
module EntityValues {
  import opened Unicode
  import opened Wrappers
  import opened Errors
  import opened Names
  import opened Lexical
  import opened LexicalBuffer
  import References

  // -------------------------------------------------------------------- tables

  /** A declared parameter entity: replacement text, an external identifier, or a reserved name. */
  datatype Entity = Entity(value: Option<string>, external: bool, open: bool)

  /** Work reported to the accounting, which may refuse it. */
  datatype Charge = Account(bytes: nat) | Expansion(bytes: nat)

  datatype Context = Context(
    entities: map<string, Entity>, active: set<string>, declaring: Option<string>,
    declarationParameters: seq<string>, rules: NameRules, namespaces: bool, internal: bool,
    outerDepth: nat, maxDepth: nat, maxBytes: nat, frameBytes: nat, savedFrameBytes: nat,
    allows: seq<Charge> -> bool)
  {
    /** Names whose replacement may not start here, whatever frames are open. */
    predicate Blocked(name: string) {
      || (name in entities && entities[name].open)
      || declaring == Some(name) || name in declarationParameters || name in active
    }
  }

  datatype Frame = Frame(rest: seq<LexChar>, name: Option<string>, normalize: bool)

  // ------------------------------------------------------------------- meaning

  /** How the building of a value ends. */
  datatype Stop = Finished | Wrong(kind: ErrorKind) | External(name: string, frames: seq<Frame>)

  /** What a piece of text stands for: its value, and what building it asks of the limits.
      `peak` is the largest size checked, `nesting` one more than the deepest stack checked. */
  datatype Meaning = Meaning(value: string, skipped: bool, peak: nat, nesting: nat, charges: seq<Charge>, stop: Stop)

  const NOTHING := Meaning("", false, 0, 0, [], Finished)

  /** One piece after another; whatever follows a stop is not built. */
  function Then(a: Meaning, b: Meaning): Meaning {
    if a.stop != Finished then a
    else Meaning(a.value + b.value, a.skipped || b.skipped, Max(a.peak, Len(a.value) + b.peak),
                 Max(a.nesting, b.nesting), a.charges + b.charges, b.stop)
  }

  function Stopped(stop: Stop): Meaning { NOTHING.(stop := stop) }

  function Charged(charge: Charge): Meaning { NOTHING.(charges := [charge]) }

  /** Replacement text, but not the literal itself, is charged as it is read. */
  function Counted(frame: Frame, bytes: nat): Meaning {
    if frame.name.Some? then Charged(Account(bytes)) else NOTHING
  }

  function Billed(charges: seq<Charge>, frame: Frame, bytes: nat): seq<Charge> {
    if frame.name.Some? then charges + [Account(bytes)] else charges
  }

  function Literal(text: seq<LexChar>, normalize: bool): Meaning {
    NOTHING.(value := Scalars(if normalize then Normalize(text) else text), peak := Len(Shown(text)))
  }

  function Prepend(frames: seq<Frame>, m: Meaning): Meaning {
    if m.stop.External? then m.(stop := External(m.stop.name, frames + m.stop.frames)) else m
  }

  /** Where the first reference may start. */
  function RefStart(s: string): (n: nat)
    ensures n <= |s| && (n < |s| ==> s[n] == '&' || s[n] == '%')
    ensures forall i: nat | i < n :: s[i] != '&' && s[i] != '%'
  {
    if s == "" || s[0] == '&' || s[0] == '%' then 0
    else
      assert forall i: nat | 1 <= i < |s| :: s[i] == s[1..][i - 1];
      1 + RefStart(s[1..])
  }

  predicate Delimiter(c: LexChar) { c.Shown() == '&' || c.Shown() == '%' }

  predicate Unmarked(run: seq<LexChar>) { forall i: nat | i < |run| :: !Delimiter(run[i]) }

  /** A run ends at the first delimiter. */
  lemma RunThere(run: seq<LexChar>, rest: seq<LexChar>)
    requires Unmarked(run) && (rest == [] || Delimiter(rest[0]))
    ensures RefStart(Shown(run + rest)) == |run| && (run + rest)[..|run|] == run && (run + rest)[|run|..] == rest
  {
    var all := run + rest;
    assert forall i: nat | i < |run| :: Shown(all)[i] == run[i].Shown();
    assert rest != [] ==> Shown(all)[|run|] == rest[0].Shown();
  }

  function Free(env: Context, open: set<string>): nat { |env.entities.Keys - open| }

  lemma Opens(env: Context, open: set<string>, name: string)
    requires name in env.entities && name !in open
    ensures Free(env, open + {name}) < Free(env, open)
  {
    var before, after := env.entities.Keys - open, env.entities.Keys - (open + {name});
    assert before == after + {name};
  }

  /** The replacement text of the rest of a frame, given the names of the open frames. */
  function Replace(env: Context, frame: Frame, open: set<string>): Meaning
    decreases Free(env, open), |frame.rest|, 4
  {
    var n := RefStart(Shown(frame.rest));
    var head := Head(frame, n);
    if n == |frame.rest| then head else Then(head, AtReference(env, frame.(rest := frame.rest[n..]), open))
  }

  /** The text before the first reference. */
  function Head(frame: Frame, n: nat): Meaning
    requires n <= |frame.rest|
  {
    Then(Counted(frame, Len(Shown(frame.rest[..n]))), Literal(frame.rest[..n], frame.normalize))
  }

  predicate StartsReference(text: seq<LexChar>) {
    text != [] && (text[0].Shown() == '&' || text[0].Shown() == '%')
  }

  /** The offset of the `;` that ends a reference. */
  function ReferenceEnd(text: seq<LexChar>): (end: Option<nat>)
    requires StartsReference(text)
    ensures end.Some? ==> 1 <= end.value < |text|
  {
    References.Semicolon(Shown(text))
  }

  function AtReference(env: Context, frame: Frame, open: set<string>): Meaning
    requires StartsReference(frame.rest)
    decreases Free(env, open), |frame.rest|, 3
  {
    match ReferenceEnd(frame.rest)
    case None => Stopped(Wrong(InvalidToken))
    case Some(end) =>
      var reference, after := frame.rest[..end + 1], frame.(rest := frame.rest[end + 1..]);
      Then(Counted(frame, Len(Shown(reference))),
           Then(Prepend([after], Reference(env, reference, open)), Replace(env, after, open)))
  }

  /** The name or digits between the delimiters of a reference. */
  function Inner(reference: seq<LexChar>): (inner: seq<LexChar>)
    requires |reference| >= 2
  {
    reference[1..|reference| - 1]
  }

  predicate NamesEntity(env: Context, spelled: string) {
    env.rules.IsName(spelled) && !(env.namespaces && ':' in spelled)
  }

  /** Sections 4.4.5 and 4.4.7 of XML 1.0: character references are included, general
      references bypassed, parameter references included in place. */
  function Reference(env: Context, reference: seq<LexChar>, open: set<string>): Meaning
    requires |reference| >= 2
    decreases Free(env, open), |reference|, 2
  {
    var spelled := Shown(Inner(reference));
    var parameter := reference[0].Shown() == '%';
    if !parameter && spelled != "" && spelled[0] == '#' then Numeric(spelled)
    else if !NamesEntity(env, spelled) then Stopped(Wrong(InvalidToken))
    else if !parameter then Literal(reference, false)
    else if env.internal then Stopped(Wrong(ParameterEntityReference))
    else Then(Charged(Expansion(Len(Shown(reference)) + env.frameBytes)),
              Parameter(env, Scalars(Inner(reference)), open))
  }

  function Numeric(spelled: string): Meaning {
    match References.CharacterReference(spelled)
    case Failure((kind, _)) => Stopped(Wrong(kind))
    case Success(None) => NOTHING
    case Success(Some(c)) => Literal([Raw(c)], false)
  }

  /** A parameter entity's own replacement text, unless its name is open or blocked. */
  function Parameter(env: Context, name: string, open: set<string>): Meaning
    decreases Free(env, open), 0, 1
  {
    if env.Blocked(name) || name in open then Stopped(Wrong(RecursiveEntityReference))
    else if name !in env.entities then NOTHING.(skipped := true)
    else
      var entity := env.entities[name];
      Then(NOTHING.(nesting := |open| + 1),
           match entity.value
           case None => if entity.external then Stopped(External(name, [])) else NOTHING
           case Some(value) =>
             Opens(env, open, name);
             Then(Charged(Expansion(Len(value))), Replace(env, Entered(name, value), open + {name})))
  }

  function Entered(name: string, value: string): Frame { Frame(Plain(value), Some(name), false) }

  // ------------------------------------------------------------------ the limits

  predicate Permitted(env: Context, charges: seq<Charge>) {
    forall i: nat | 1 <= i <= |charges| :: env.allows(charges[..i])
  }

  /** Saving the frames of an unfinished value is charged as well. */
  function SavingCharges(env: Context, frames: seq<Frame>): (charges: seq<Charge>)
    ensures |charges| == |frames|
  {
    seq(|frames|, i requires 0 <= i < |frames| => SavingCharge(env, frames[i]))
  }

  function SavingCharge(env: Context, frame: Frame): Charge {
    Expansion(env.savedFrameBytes + Len(Shown(frame.rest)) + if frame.name.Some? then Len(frame.name.value) else 0)
  }

  function AllCharges(env: Context, m: Meaning): seq<Charge> {
    m.charges + if m.stop.External? then SavingCharges(env, m.stop.frames) else []
  }

  predicate Within(env: Context, m: Meaning) {
    && m.peak <= env.maxBytes && Permitted(env, m.charges)
    && (m.nesting == 0 || m.nesting - 1 + env.outerDepth <= env.maxDepth)
  }

  /** No limit is in the way of a meaning. */
  predicate Fits(env: Context, m: Meaning) {
    Within(env, m) && Permitted(env, AllCharges(env, m))
  }

  datatype Build = Complete(value: string, skipped: bool)
                 | Pending(value: string, skipped: bool, frames: seq<Frame>, reference: string)

  function Report(m: Meaning): Result<Build, ErrorKind> {
    match m.stop
    case Finished => Success(Complete(m.value, m.skipped))
    case Wrong(kind) => Failure(kind)
    case External(name, frames) => Success(Pending(m.value, m.skipped, frames, name))
  }

  // ------------------------------------------------------------ laws of meanings

  lemma ThenAssociative(a: Meaning, b: Meaning, c: Meaning)
    ensures Then(Then(a, b), c) == Then(a, Then(b, c))
  {
    if a.stop == Finished && b.stop == Finished {
      LenConcat(a.value, b.value);
      Associative(a.value, b.value, c.value);
      Associative(a.charges, b.charges, c.charges);
    }
  }

  lemma NothingFirst(m: Meaning)
    ensures Then(NOTHING, m) == m
  {
    assert "" + m.value == m.value && [] + m.charges == m.charges;
  }

  lemma PrependThen(frames: seq<Frame>, a: Meaning, b: Meaning)
    ensures Prepend(frames, Then(a, b)) == Then(Prepend(frames, a), Prepend(frames, b))
  {}

  lemma PrependTwice(outer: seq<Frame>, inner: seq<Frame>, m: Meaning)
    ensures Prepend(outer, Prepend(inner, m)) == Prepend(outer + inner, m)
  {
    if m.stop.External? { Associative(outer, inner, m.stop.frames); }
  }

  /** What a stack of suspended frames makes of the meaning of the current one. */
  function Resume(env: Context, parents: seq<Frame>, m: Meaning): Meaning
    decreases |parents|
  {
    if parents == [] then m
    else
      var n := |parents| - 1;
      Then(Prepend(parents, m), Resume(env, parents[..n], Replace(env, parents[n], OpenNames(parents))))
  }

  function OpenNames(frames: seq<Frame>): set<string> {
    set i: nat | i < |frames| && frames[i].name.Some? :: frames[i].name.value
  }

  lemma {:induction false} ResumeThen(env: Context, parents: seq<Frame>, a: Meaning, b: Meaning)
    ensures a.stop == Finished ==> Resume(env, parents, Then(a, b)) == Then(a, Resume(env, parents, b))
    ensures a.stop != Finished ==> Resume(env, parents, Then(a, b)) == Prepend(parents, a)
  {
    hide Replace;
    if parents != [] {
      var n := |parents| - 1;
      PrependThen(parents, a, b);
      ThenAssociative(a, Prepend(parents, b), Resume(env, parents[..n], Replace(env, parents[n], OpenNames(parents))));
    }
  }

  lemma Enter(env: Context, parents: seq<Frame>, after: Frame, m: Meaning)
    ensures Resume(env, parents, Then(Prepend([after], m), Replace(env, after, OpenNames(parents + [after]))))
         == Resume(env, parents + [after], m)
  {
    hide Replace;
    var whole := parents + [after];
    assert whole[..|whole| - 1] == parents;
    var r := Replace(env, after, OpenNames(whole));
    PrependTwice(parents, [after], m);
    if m.stop == Finished {
      ResumeThen(env, parents, m, r);
    } else {
      ResumeThen(env, parents, Prepend([after], m), r);
    }
  }

  // ---------------------------------------------------------------- building it

  /** A meaning is built up to `done` within the limits, and `ahead` is still to come. */
  predicate Halfway(env: Context, whole: Meaning, done: Meaning, ahead: Meaning) {
    && whole == Then(done, ahead) && done.stop == Finished && Within(env, done)
    && Len(done.value) <= done.peak
  }

  lemma PermittedPrefix(env: Context, a: seq<Charge>, b: seq<Charge>)
    ensures Permitted(env, a + b) ==> Permitted(env, a)
  {
    forall i: nat | 1 <= i <= |a| && Permitted(env, a + b) ensures env.allows(a[..i]) {
      assert (a + b)[..i] == a[..i];
    }
  }

  lemma PermittedNext(env: Context, a: seq<Charge>, charge: Charge)
    requires Permitted(env, a)
    ensures Permitted(env, a + [charge]) == env.allows(a + [charge])
  {
    assert (a + [charge])[..|a| + 1] == a + [charge];
    forall i: nat | 1 <= i <= |a| ensures env.allows((a + [charge])[..i]) {
      assert (a + [charge])[..i] == a[..i];
    }
  }

  /** Building the next piece either stays within the limits or shows that the whole does not fit. */
  lemma Take(env: Context, parents: seq<Frame>, whole: Meaning, done: Meaning, piece: Meaning, rest: Meaning)
    requires Halfway(env, whole, done, Resume(env, parents, Then(piece, rest)))
    requires piece.stop == Finished && Len(piece.value) <= piece.peak
    ensures
      var next := Then(done, piece);
      if Within(env, next) then Halfway(env, whole, next, Resume(env, parents, rest)) else !Fits(env, whole)
  {
    hide Replace, Resume, Permitted;
    ResumeThen(env, parents, piece, rest);
    var ahead := Resume(env, parents, rest);
    ThenAssociative(done, piece, ahead);
    LenConcat(done.value, piece.value);
    var next := Then(done, piece);
    PermittedPrefix(env, next.charges, ahead.charges);
  }

  /** A stop that is reached is what gets reported. */
  lemma Reach(env: Context, parents: seq<Frame>, whole: Meaning, done: Meaning, stop: Stop, rest: Meaning)
    requires Halfway(env, whole, done, Resume(env, parents, Then(Stopped(stop), rest))) && stop != Finished
    ensures whole == done.(stop := Prepend(parents, Stopped(stop)).stop) && Within(env, whole)
    ensures stop.Wrong? ==> Fits(env, whole) && Report(whole) == Failure(stop.kind)
  {
    hide Replace, Resume;
    ResumeThen(env, parents, Stopped(stop), rest);
    assert done.value + "" == done.value && done.charges + [] == done.charges;
    assert whole.charges == done.charges;
  }

  lemma ChargeTaken(env: Context, done: Meaning, charge: Charge)
    requires Within(env, done) && done.stop == Finished && Len(done.value) <= done.peak
    ensures Then(done, Charged(charge)) == done.(charges := done.charges + [charge])
    ensures Within(env, Then(done, Charged(charge))) == env.allows(done.charges + [charge])
  {
    assert done.value + "" == done.value;
    PermittedNext(env, done.charges, charge);
  }

  lemma {:induction false} DecodedShorter(text: seq<LexChar>, normalize: bool)
    ensures Len(Scalars(if normalize then Normalize(text) else text)) <= Len(Shown(text))
    decreases |text|
  {
    hide Representative, Width, Scalars, Shown;
    if text != [] {
      ShownWider(text[0]);
      ShownCons(text);
      if normalize && text[0] == Raw('\r') {
        var rest := if |text| > 1 && text[1] == Raw('\n') then text[2..] else text[1..];
        DecodedShorter(rest, true);
        ScalarsCons(Raw('\n'), Normalize(rest));
        if |text| > 1 { ShownCons(text[1..]); }
        Newlines();
      } else {
        DecodedShorter(text[1..], normalize);
        ScalarsCons(text[0], if normalize then Normalize(text[1..]) else text[1..]);
        assert text == [text[0]] + text[1..];
      }
    }
  }

  lemma ShownCons(text: seq<LexChar>)
    requires text != []
    ensures Len(Shown(text)) == Width(text[0].Shown()) + Len(Shown(text[1..]))
  {
    assert Shown(text)[1..] == Shown(text[1..]);
  }

  lemma ShownWider(c: LexChar)
    ensures Width(c.Scalar()) <= Width(c.Shown())
  {}

  lemma Newlines()
    ensures Width('\r') == Width('\n') == 1
  {}

  lemma LiteralTaken(env: Context, done: Meaning, text: seq<LexChar>, normalize: bool)
    requires Within(env, done) && done.stop == Finished && Len(done.value) <= done.peak
    ensures
      var piece := Literal(text, normalize);
      var next := Then(done, piece);
      && next.value == done.value + piece.value && next.skipped == done.skipped && next.charges == done.charges
      && Within(env, next) == (Len(done.value) + Len(Shown(text)) <= env.maxBytes)
      && Len(piece.value) <= piece.peak
  {
    DecodedShorter(text, normalize);
    assert done.charges + [] == done.charges;
  }

  /** `append_entity_value`: the bound is checked on the stored form, before anything is appended. */
  method AppendEntityValue(env: Context, value: string, text: seq<LexChar>, normalize: bool)
    returns (result: Result<string, ErrorKind>)
    ensures result == if Len(value) + Len(Shown(text)) > env.maxBytes then Failure(LimitExceeded)
                      else Success(value + Scalars(if normalize then Normalize(text) else text))
  {
    hide Normalize;
    if Len(value) + Len(Shown(text)) > env.maxBytes {
      return Failure(LimitExceeded);
    }
    var slice := Represent(text, 0);
    var more;
    if normalize && '\r' in Shown(text) {
      more := Normalized(slice);
    } else {
      if Raw('\r') in text { ShownReturn(text); }
      WithoutReturns(text);
      more := Decode(slice);
    }
    result := Success(value + more);
  }

  lemma ShownReturn(text: seq<LexChar>)
    requires Raw('\r') in text
    ensures '\r' in Shown(text)
  {
    var i: nat :| i < |text| && text[i] == Raw('\r');
    assert Shown(text)[i] == '\r';
  }

  lemma WithoutReturns(text: seq<LexChar>)
    ensures Raw('\r') !in text ==> Normalize(text) == text
  {
    if Raw('\r') !in text { NormalizeQuiet(text); }
  }

  /** Charge for every frame of an unfinished value. */
  method SaveFrames(env: Context, before: seq<Charge>, frames: seq<Frame>) returns (ok: bool)
    requires Permitted(env, before)
    ensures ok == Permitted(env, before + SavingCharges(env, frames))
  {
    hide Permitted;
    var charges := before;
    var i := 0;
    assert before + SavingCharges(env, frames[..0]) == before;
    while i < |frames|
      invariant i <= |frames| && charges == before + SavingCharges(env, frames[..i]) && Permitted(env, charges)
    {
      var next := charges + [SavingCharge(env, frames[i])];
      PermittedNext(env, charges, SavingCharge(env, frames[i]));
      assert next == before + SavingCharges(env, frames[..i + 1]);
      PermittedPrefix(env, next, SavingCharges(env, frames[i + 1..]));
      assert next + SavingCharges(env, frames[i + 1..]) == before + SavingCharges(env, frames);
      if !env.allows(next) {
        return false;
      }
      charges, i := next, i + 1;
    }
    assert frames[..i] == frames;
    ok := true;
  }

  // -------------------------------------------------------------- the frame stack

  /** Only the literal's own frame has no name; the names of the others are declared and distinct. */
  predicate Proper(env: Context, frames: seq<Frame>) {
    && frames != [] && frames[0].name.None?
    && (forall i: nat | 1 <= i < |frames| :: frames[i].name.Some? && frames[i].name.value in env.entities)
    && (forall i: nat, j: nat | 1 <= i < j < |frames| :: frames[i].name != frames[j].name)
  }

  lemma {:induction false} OpenCount(env: Context, frames: seq<Frame>)
    requires Proper(env, frames)
    ensures |OpenNames(frames)| == |frames| - 1 <= |env.entities.Keys|
  {
    hide OpenNames, Proper;
    var n := |frames| - 1;
    OpenWithin(env, frames);
    SubsetSize(OpenNames(frames), env.entities.Keys);
    if n > 0 {
      LastIsNew(env, frames);
      OpenCount(env, frames[..n]);
      OpenMore(frames[..n], frames[n]);
      assert frames[..n] + [frames[n]] == frames;
    }
  }

  lemma OpenWithin(env: Context, frames: seq<Frame>)
    requires Proper(env, frames)
    ensures frames != [] && OpenNames(frames) <= env.entities.Keys && (|frames| == 1 ==> OpenNames(frames) == {})
  {}

  lemma LastIsNew(env: Context, frames: seq<Frame>)
    requires Proper(env, frames) && |frames| > 1
    ensures
      var n := |frames| - 1;
      && Proper(env, frames[..n]) && frames[n].name.Some? && frames[n].name.value !in OpenNames(frames[..n])
  {}

  lemma {:induction false} SubsetSize<T>(a: set<T>, b: set<T>)
    requires a <= b
    ensures |a| <= |b|
  {
    if a != {} {
      var x :| x in a;
      SubsetSize(a - {x}, b - {x});
    }
  }

  lemma OpenMore(frames: seq<Frame>, frame: Frame)
    ensures OpenNames(frames + [frame]) == OpenNames(frames) + if frame.name.Some? then {frame.name.value} else {}
  {
    var all := frames + [frame];
    assert forall i: nat | i < |frames| :: all[i] == frames[i];
    assert all[|frames|] == frame;
  }

  /** An upper bound on the loop's iterations, for tables with and without cycles. */
  function Cost(env: Context, rest: seq<LexChar>, open: set<string>): nat
    decreases Free(env, open), |rest|, 1
  {
    var n := RefStart(Shown(rest));
    if n == |rest| then 1
    else
      var at := rest[n..];
      match ReferenceEnd(at)
      case None => 1
      case Some(end) => 1 + InnerCost(env, at[..end + 1], open) + Cost(env, at[end + 1..], open)
  }

  function InnerCost(env: Context, reference: seq<LexChar>, open: set<string>): nat
    requires |reference| >= 2
    decreases Free(env, open), |reference|, 0
  {
    var name := Scalars(Inner(reference));
    if name in env.entities && name !in open && env.entities[name].value.Some? then
      Opens(env, open, name);
      Cost(env, Plain(env.entities[name].value.value), open + {name})
    else 0
  }

  function StackCost(env: Context, frames: seq<Frame>): nat {
    if frames == [] then 0
    else
      var n := |frames| - 1;
      StackCost(env, frames[..n]) + Cost(env, frames[n].rest, OpenNames(frames))
  }

  lemma Popped(env: Context, parents: seq<Frame>, current: Frame)
    requires parents != [] && Proper(env, parents + [current])
    ensures
      var n := |parents| - 1;
      && parents[..n] + [parents[n]] == parents && Proper(env, parents)
      && current.name.Some? && OpenNames(parents + [current]) - {current.name.value} == OpenNames(parents)
      && StackCost(env, parents) < StackCost(env, parents + [current])
  {
    hide Cost;
    var all := parents + [current];
    assert all[..|all| - 1] == parents && all[|all| - 1] == current;
    forall i: nat | i < |parents| ensures all[i] == parents[i] {}
    OpenMore(parents, current);
    LastIsNew(env, all);
    CostPositive(env, current.rest, OpenNames(all));
  }

  lemma CostPositive(env: Context, rest: seq<LexChar>, open: set<string>)
    ensures Cost(env, rest, open) >= 1
  {}

  /** What the loop needs to know after moving on in the current frame. */
  lemma Moved(env: Context, parents: seq<Frame>, before: Frame, after: Frame)
    requires Proper(env, parents + [before]) && after.name == before.name
    requires Cost(env, after.rest, OpenNames(parents + [before])) < Cost(env, before.rest, OpenNames(parents + [before]))
    ensures Proper(env, parents + [after]) && OpenNames(parents + [after]) == OpenNames(parents + [before])
    ensures StackCost(env, parents + [after]) < StackCost(env, parents + [before])
  {
    hide Cost, Proper, OpenNames;
    var a, b := parents + [before], parents + [after];
    assert a[..|parents|] == b[..|parents|] == parents;
    OpenMore(parents, before);
    OpenMore(parents, after);
    StaysProper(env, parents, before, after);
  }

  lemma StaysProper(env: Context, parents: seq<Frame>, before: Frame, after: Frame)
    requires Proper(env, parents + [before]) && after.name == before.name
    ensures Proper(env, parents + [after])
  {
    var a, b := parents + [before], parents + [after];
    assert forall i: nat | i < |parents| :: a[i] == b[i];
    assert forall i: nat | i < |a| :: a[i].name == b[i].name && (i >= 1 ==> a[i].name.Some?);
  }

  /** Entering a replacement that is not open keeps the stack proper, and costs no more than announced. */
  lemma Pushed(env: Context, parents: seq<Frame>, before: Frame, after: Frame, name: string)
    requires Proper(env, parents + [before]) && after.name == before.name
    requires name in env.entities && env.entities[name].value.Some? && name !in OpenNames(parents + [before])
    requires
      var open := OpenNames(parents + [before]);
      Cost(env, before.rest, open) > Cost(env, after.rest, open)
        + Cost(env, Plain(env.entities[name].value.value), open + {name})
    ensures
      var inner := Entered(name, env.entities[name].value.value);
      var stack := parents + [after] + [inner];
      && Proper(env, stack) && OpenNames(stack) == OpenNames(parents + [before]) + {name}
      && StackCost(env, stack) < StackCost(env, parents + [before])
  {
    hide Cost, Proper, OpenNames, StackCost;
    var value := env.entities[name].value.value;
    CostPositive(env, Plain(value), OpenNames(parents + [before]) + {name});
    Moved(env, parents, before, after);
    var below, inner := parents + [after], Entered(name, value);
    OpenMore(below, inner);
    ProperPush(env, below, inner);
    StackCostMore(env, below, inner);
    StackCostMore(env, parents, after);
    StackCostMore(env, parents, before);
  }

  lemma StackCostMore(env: Context, frames: seq<Frame>, frame: Frame)
    ensures StackCost(env, frames + [frame]) == StackCost(env, frames) + Cost(env, frame.rest, OpenNames(frames + [frame]))
  {
    hide Cost, OpenNames;
    assert (frames + [frame])[..|frames|] == frames;
  }

  lemma ProperPush(env: Context, frames: seq<Frame>, frame: Frame)
    requires Proper(env, frames) && frame.name.Some?
    requires frame.name.value in env.entities && frame.name.value !in OpenNames(frames)
    ensures Proper(env, frames + [frame])
  {
    var all := frames + [frame];
    assert forall i: nat | i < |frames| :: all[i] == frames[i];
    forall i: nat | 1 <= i < |frames| ensures all[i].name != frame.name {
      assert frames[i].name.value in OpenNames(frames);
    }
  }

  // ------------------------------------------------------- one step of the loop

  lemma FirstReference(text: seq<LexChar>)
    ensures
      var n := RefStart(Shown(text));
      n < |text| ==> StartsReference(text[n..])
  {
    var n := RefStart(Shown(text));
    if n < |text| { assert text[n..][0].Shown() == Shown(text)[n]; }
  }

  /** The text before a reference, and the reference, of a frame. */
  lemma AtHead(env: Context, frame: Frame, open: set<string>)
    ensures
      var n := RefStart(Shown(frame.rest));
      (n < |frame.rest| ==> StartsReference(frame.rest[n..])) && Replace(env, frame, open)
        == Then(Counted(frame, Len(Shown(frame.rest[..n]))),
                Then(Literal(frame.rest[..n], frame.normalize),
                     if n == |frame.rest| then NOTHING else AtReference(env, frame.(rest := frame.rest[n..]), open)))
  {
    hide Len, Scalars, Normalize, AtReference;
    FirstReference(frame.rest);
    var n := RefStart(Shown(frame.rest));
    var counted, literal := Counted(frame, Len(Shown(frame.rest[..n]))), Literal(frame.rest[..n], frame.normalize);
    if n == |frame.rest| {
      DecodedShorter(frame.rest[..n], frame.normalize);
      NothingLast(literal);
    } else {
      ThenAssociative(counted, literal, AtReference(env, frame.(rest := frame.rest[n..]), open));
    }
  }

  lemma NothingLast(m: Meaning)
    requires Len(m.value) <= m.peak
    ensures Then(m, NOTHING) == m
  {
    assert m.value + "" == m.value && m.charges + [] == m.charges;
  }

  lemma AtDelimiter(env: Context, frame: Frame, open: set<string>)
    requires StartsReference(frame.rest)
    ensures AtReference(env, frame, open) ==
      match ReferenceEnd(frame.rest)
      case None => Then(Stopped(Wrong(InvalidToken)), NOTHING)
      case Some(end) =>
        var reference, after := frame.rest[..end + 1], frame.(rest := frame.rest[end + 1..]);
        Then(Counted(frame, Len(Shown(reference))),
             Then(Prepend([after], Reference(env, reference, open)), Replace(env, after, open)))
  {
    hide Len, Replace, Reference, Prepend, ReferenceEnd, Counted;
  }

  predicate IsParameter(reference: seq<LexChar>) { reference != [] && reference[0].Shown() == '%' }

  predicate IsNumeric(reference: seq<LexChar>) {
    |reference| >= 2 && !IsParameter(reference)
    && Inner(reference) != [] && Inner(reference)[0].Shown() == '#'
  }

  lemma ReferenceCases(env: Context, reference: seq<LexChar>, open: set<string>, after: Frame, r: Meaning)
    requires |reference| >= 2
    ensures
      var spelled := Shown(Inner(reference));
      Then(Prepend([after], Reference(env, reference, open)), r) ==
        if IsNumeric(reference) then
          match References.CharacterReference(spelled)
          case Failure((kind, _)) => Then(Stopped(Wrong(kind)), r)
          case Success(None) => Then(NOTHING, r)
          case Success(Some(c)) => Then(Literal([Raw(c)], false), r)
        else if !NamesEntity(env, spelled) then Then(Stopped(Wrong(InvalidToken)), r)
        else if !IsParameter(reference) then Then(Literal(reference, false), r)
        else if env.internal then Then(Stopped(Wrong(ParameterEntityReference)), r)
        else
          Then(Charged(Expansion(Len(Shown(reference)) + env.frameBytes)),
               Then(Prepend([after], Parameter(env, Scalars(Inner(reference)), open)), r))
  {
    hide Len, Scalars, Parameter, References.CharacterReference, NamesEntity;
    assert Inner(reference) != [] ==> Shown(Inner(reference))[0] == Inner(reference)[0].Shown();
    var p := Parameter(env, Scalars(Inner(reference)), open);
    var charged := Charged(Expansion(Len(Shown(reference)) + env.frameBytes));
    PrependThen([after], charged, p);
    ThenAssociative(charged, Prepend([after], p), r);
  }

  lemma NumericDecides(spelled: string)
    requires spelled != "" && spelled[0] == '#'
    ensures References.CharacterReference(spelled) != Success(None)
  {}

  /** An entity that may be replaced, and what follows its reference. */
  function Included(env: Context, name: string, open: set<string>, after: Frame, r: Meaning): Meaning
    requires name in env.entities
  {
    var entity := env.entities[name];
    match entity.value
    case None => if entity.external then Then(Stopped(External(name, [after])), r) else r
    case Some(value) =>
      Then(Charged(Expansion(Len(value))),
           Then(Prepend([after], Replace(env, Entered(name, value), open + {name})), r))
  }

  lemma ParameterCases(env: Context, name: string, open: set<string>, after: Frame, r: Meaning)
    ensures
      Then(Prepend([after], Parameter(env, name, open)), r) ==
        if env.Blocked(name) || name in open then Then(Stopped(Wrong(RecursiveEntityReference)), r)
        else if name !in env.entities then Then(NOTHING.(skipped := true), r)
        else Then(NOTHING.(nesting := |open| + 1), Included(env, name, open, after, r))
  {
    hide Len, Replace;
    if name in env.entities && !env.Blocked(name) && name !in open {
      var nest := NOTHING.(nesting := |open| + 1);
      NothingFirst(r);
      match env.entities[name].value
      case None => ThenAssociative(nest, NOTHING, r);
      case Some(value) =>
        var charged, m := Charged(Expansion(Len(value))), Replace(env, Entered(name, value), open + {name});
        PrependThen([after], nest, Then(charged, m));
        PrependThen([after], charged, m);
        ThenAssociative(nest, Then(charged, Prepend([after], m)), r);
        ThenAssociative(charged, Prepend([after], m), r);
    }
  }

  lemma EmptyLen()
    ensures Len("") == 0
  {}

  /** Where the loop is: what was built, and what the current frame still means. */
  ghost predicate State(env: Context, whole: Meaning, parents: seq<Frame>, done: Meaning,
                        value: string, skipped: bool, charges: seq<Charge>, ahead: Meaning) {
    && done.value == value && done.skipped == skipped && done.charges == charges
    && Halfway(env, whole, done, Resume(env, parents, ahead))
  }

  /** One piece without a stop, in the terms of the code: a charge, an append, a nesting check. */
  lemma CountStep(env: Context, whole: Meaning, parents: seq<Frame>, done: Meaning, value: string, skipped: bool,
                  charges: seq<Charge>, frame: Frame, bytes: nat, rest: Meaning)
    returns (next: Meaning)
    requires State(env, whole, parents, done, value, skipped, charges, Then(Counted(frame, bytes), rest))
    ensures
      var billed := Billed(charges, frame, bytes);
      if frame.name.Some? && !env.allows(billed) then !Fits(env, whole)
      else State(env, whole, parents, next, value, skipped, billed, rest)
  {
    hide Resume, Len, Fits;
    EmptyLen();
    next := Then(done, Counted(frame, bytes));
    Take(env, parents, whole, done, Counted(frame, bytes), rest);
    if frame.name.Some? { ChargeTaken(env, done, Account(bytes)); } else { NothingLast(done); }
  }

  lemma ChargeStep(env: Context, whole: Meaning, parents: seq<Frame>, done: Meaning, value: string, skipped: bool,
                   charges: seq<Charge>, bytes: nat, rest: Meaning)
    returns (next: Meaning)
    requires State(env, whole, parents, done, value, skipped, charges, Then(Charged(Expansion(bytes)), rest))
    ensures
      if !env.allows(charges + [Expansion(bytes)]) then !Fits(env, whole)
      else State(env, whole, parents, next, value, skipped, charges + [Expansion(bytes)], rest)
  {
    hide Resume, Fits;
    next := Then(done, Charged(Expansion(bytes)));
    Take(env, parents, whole, done, Charged(Expansion(bytes)), rest);
    ChargeTaken(env, done, Expansion(bytes));
  }

  lemma LiteralStep(env: Context, whole: Meaning, parents: seq<Frame>, done: Meaning, value: string, skipped: bool,
                    charges: seq<Charge>, text: seq<LexChar>, normalize: bool, rest: Meaning)
    returns (next: Meaning)
    requires State(env, whole, parents, done, value, skipped, charges, Then(Literal(text, normalize), rest))
    ensures
      if Len(value) + Len(Shown(text)) > env.maxBytes then !Fits(env, whole)
      else
        State(env, whole, parents, next, value + Scalars(if normalize then Normalize(text) else text), skipped, charges,
              rest)
  {
    hide Resume, Fits, Len, Shown, Scalars, Normalize;
    next := Then(done, Literal(text, normalize));
    LiteralTaken(env, done, text, normalize);
    Take(env, parents, whole, done, Literal(text, normalize), rest);
  }

  lemma NestStep(env: Context, whole: Meaning, parents: seq<Frame>, done: Meaning, value: string, skipped: bool,
                 charges: seq<Charge>, depth: nat, rest: Meaning)
    returns (next: Meaning)
    requires State(env, whole, parents, done, value, skipped, charges, Then(NOTHING.(nesting := depth + 1), rest))
    ensures
      if depth + env.outerDepth > env.maxDepth then !Fits(env, whole)
      else State(env, whole, parents, next, value, skipped, charges, rest)
  {
    hide Resume, Len, Permitted;
    var piece := NOTHING.(nesting := depth + 1);
    next := Then(done, piece);
    assert done.value + "" == done.value && done.charges + [] == done.charges;
    EmptyLen();
    Take(env, parents, whole, done, piece, rest);
  }

  lemma SkipStep(env: Context, whole: Meaning, parents: seq<Frame>, done: Meaning, value: string, skipped: bool,
                 charges: seq<Charge>, rest: Meaning)
    returns (next: Meaning)
    requires State(env, whole, parents, done, value, skipped, charges, Then(NOTHING.(skipped := true), rest))
    ensures State(env, whole, parents, next, value, true, charges, rest)
  {
    hide Resume, Len, Permitted;
    var piece := NOTHING.(skipped := true);
    next := Then(done, piece);
    assert done.value + "" == done.value && done.charges + [] == done.charges;
    EmptyLen();
    Take(env, parents, whole, done, piece, rest);
  }

  lemma WrongStep(env: Context, whole: Meaning, parents: seq<Frame>, done: Meaning, value: string, skipped: bool,
                  charges: seq<Charge>, kind: ErrorKind, rest: Meaning)
    requires State(env, whole, parents, done, value, skipped, charges, Then(Stopped(Wrong(kind)), rest))
    ensures Fits(env, whole) && Report(whole) == Failure(kind)
  {
    hide Resume;
    Reach(env, parents, whole, done, Wrong(kind), rest);
  }

  lemma FinishStep(env: Context, whole: Meaning, parents: seq<Frame>, done: Meaning, value: string, skipped: bool,
                   charges: seq<Charge>)
    requires State(env, whole, parents, done, value, skipped, charges, NOTHING)
    ensures parents == [] ==> Fits(env, whole) && Report(whole) == Success(Complete(value, skipped))
    ensures parents != [] ==>
      State(env, whole, parents[..|parents| - 1], done, value, skipped, charges,
            Replace(env, parents[|parents| - 1], OpenNames(parents)))
  {
    hide Replace, Len;
    if parents == [] {
      NothingLast(done);
      assert done.charges + [] == done.charges;
    } else {
      NothingFirst(Resume(env, parents[..|parents| - 1], Replace(env, parents[|parents| - 1], OpenNames(parents))));
    }
  }

  lemma ExternalStep(env: Context, whole: Meaning, parents: seq<Frame>, done: Meaning, value: string, skipped: bool,
                     charges: seq<Charge>, name: string, after: Frame, rest: Meaning)
    requires State(env, whole, parents, done, value, skipped, charges, Then(Stopped(External(name, [after])), rest))
    ensures Permitted(env, charges)
    ensures Fits(env, whole) == Permitted(env, charges + SavingCharges(env, parents + [after]))
    ensures Report(whole) == Success(Pending(value, skipped, parents + [after], name))
  {
    hide Resume, Permitted;
    Reach(env, parents, whole, done, External(name, [after]), rest);
  }

  lemma EnterStep(env: Context, whole: Meaning, parents: seq<Frame>, done: Meaning, value: string, skipped: bool,
                  charges: seq<Charge>, after: Frame, m: Meaning, open: set<string>)
    requires State(env, whole, parents, done, value, skipped, charges, Then(Prepend([after], m), Replace(env, after, open)))
    requires open == OpenNames(parents + [after])
    ensures State(env, whole, parents + [after], done, value, skipped, charges, m)
  {
    hide Replace, Resume, Then, Prepend, OpenNames;
    Enter(env, parents, after, m);
  }

  // ------------------------------------------------------------------ the loop

  /** Which replacement is entered, and why its cost was already counted. */
  lemma CostAhead(env: Context, frame: Frame, open: set<string>)
    ensures
      var n := RefStart(Shown(frame.rest));
      n < |frame.rest| ==>
        var at := frame.rest[n..];
        StartsReference(at) &&
        match ReferenceEnd(at)
        case None => true
        case Some(end) =>
          var name := Scalars(Inner(at[..end + 1]));
          && Cost(env, at[end + 1..], open) < Cost(env, frame.rest, open)
          && (name in env.entities && name !in open && env.entities[name].value.Some? ==>
               Cost(env, frame.rest, open) > Cost(env, at[end + 1..], open)
                 + Cost(env, Plain(env.entities[name].value.value), open + {name}))
  {
    hide Scalars, Shown, RefStart, StartsReference, ReferenceEnd, Inner;
    FirstReference(frame.rest);
    var n := RefStart(Shown(frame.rest));
    if n < |frame.rest| && ReferenceEnd(frame.rest[n..]).Some? {
      CostInner(env, frame.rest[n..][..ReferenceEnd(frame.rest[n..]).value + 1], open);
    }
  }

  lemma CostInner(env: Context, reference: seq<LexChar>, open: set<string>)
    requires |reference| >= 2
    ensures
      var name := Scalars(Inner(reference));
      name in env.entities && name !in open && env.entities[name].value.Some? ==>
        InnerCost(env, reference, open) == Cost(env, Plain(env.entities[name].value.value), open + {name})
  {}

  lemma Beginning(env: Context, literal: Frame)
    requires literal.name.None?
    ensures
      var whole := Replace(env, literal, {});
      Proper(env, [] + [literal]) && OpenNames([] + [literal]) == {}
      && State(env, whole, [], NOTHING, "", false, [], whole) && Initialized(env, None)
  {
    hide Replace;
    assert [] + [literal] == [literal];
    NothingFirst(Replace(env, literal, {}));
    EmptyLen();
  }

  lemma SpelledNumber(reference: seq<LexChar>)
    requires IsNumeric(reference)
    ensures
      match References.CharacterReference(Shown(Inner(reference)))
      case Success(c) => c.Some?
      case Failure(_) => true
  {
    hide References.CharacterReference;
    assert Shown(Inner(reference))[0] == Inner(reference)[0].Shown();
    NumericDecides(Shown(Inner(reference)));
  }

  lemma IncludedCases(env: Context, name: string, open: set<string>, after: Frame, r: Meaning)
    requires name in env.entities
    ensures
      var entity := env.entities[name];
      Included(env, name, open, after, r) ==
        match entity.value
        case None => if entity.external then Then(Stopped(External(name, [after])), r) else r
        case Some(value) =>
          Then(Charged(Expansion(Len(value))),
               Then(Prepend([after], Replace(env, Entered(name, value), open + {name})), r))
  {
    hide Replace, Then;
  }

  lemma BlockedNames(env: Context, name: string)
    ensures env.Blocked(name) <==>
      || (name in env.entities && env.entities[name].open)
      || env.declaring == Some(name) || name in env.declarationParameters || name in env.active
  {}

  /** What a reference makes the loop do: return, go on in the frame, or enter a replacement. */
  datatype Action =
    | Halt(result: Result<Build, ErrorKind>)
    | Pass(value: string, missing: bool)
    | Into(name: string, replacement: string)

  /** What an action leaves: the result, the value so far, or a replacement text to enter. */
  ghost predicate Acts(env: Context, whole: Meaning, parents: seq<Frame>, current: Frame, active: set<string>,
                       name: string, action: Action, done: Meaning, value: string, skipped: bool,
                       billed: seq<Charge>, rest: Meaning)
  {
    match action
    case Halt(result) => result == BuildResult(env, whole)
    case Pass(extended, missing) => State(env, whole, parents, done, extended, skipped || missing, billed, rest)
    case Into(entered, replacement) =>
      && entered == name && name in env.entities && name !in active && env.entities[name].value == Some(replacement)
      && State(env, whole, parents, done, value, skipped, billed,
               Then(Prepend([current], Replace(env, Entered(name, replacement), active + {name})), rest))
  }

  function BuildResult(env: Context, whole: Meaning): Result<Build, ErrorKind> {
    if Fits(env, whole) then Report(whole) else Failure(LimitExceeded)
  }

  predicate Initialized(env: Context, blockers: Option<set<string>>) {
    blockers.Some? ==> blockers.value == set name | name in env.declarationParameters
  }

  /** The part of the loop that meets a parameter reference. Its own name and the frames to save are
      the current ones, past the reference. */
  method IncludeParameter(env: Context, reference: seq<LexChar>, parents: seq<Frame>, current: Frame,
                          active: set<string>, blockers: Option<set<string>>, value: string, skipped: bool, charges: seq<Charge>,
                          ghost whole: Meaning, ghost before: Meaning, ghost rest: Meaning)
    returns (action: Action, known: Option<set<string>>, billed: seq<Charge>, ghost done: Meaning)
    requires |reference| >= 2 && Initialized(env, blockers) && |active| == |parents|
    requires State(env, whole, parents, before, value, skipped, charges,
                   Then(Charged(Expansion(Len(Shown(reference)) + env.frameBytes)),
                        Then(Prepend([current], Parameter(env, Scalars(Inner(reference)), active)), rest)))
    ensures Initialized(env, known)
    ensures Acts(env, whole, parents, current, active, Scalars(Inner(reference)), action, done, value, skipped, billed, rest)
  {
    hide Len, Shown, Scalars, Replace, Parameter, Prepend, Then, State, Fits, Charged, Stopped, Included, Inner;
    hide Permitted, SavingCharges, Entered, Context.Blocked, IsParameter;
    known := blockers;
    var name := Scalars(Inner(reference));
    done := ChargeStep(env, whole, parents, before, value, skipped, charges, Len(Shown(reference)) + env.frameBytes,
                       Then(Prepend([current], Parameter(env, name, active)), rest));
    billed := charges + [Expansion(Len(Shown(reference)) + env.frameBytes)];
    if !env.allows(billed) {
      return Halt(Failure(LimitExceeded)), known, billed, done;
    }
    if known.None? {
      known := Some(set name | name in env.declarationParameters);
    }
    ParameterCases(env, name, active, current, rest);
    BlockedNames(env, name);
    if (name in env.entities && env.entities[name].open) || env.declaring == Some(name)
       || name in known.value || name in active || name in env.active {
      WrongStep(env, whole, parents, done, value, skipped, billed, RecursiveEntityReference, rest);
      return Halt(Failure(RecursiveEntityReference)), known, billed, done;
    }
    if name !in env.entities {
      done := SkipStep(env, whole, parents, done, value, skipped, billed, rest);
      return Pass(value, true), known, billed, done;
    }
    var entity := env.entities[name];
    done := NestStep(env, whole, parents, done, value, skipped, billed, |active|,
                     Included(env, name, active, current, rest));
    if |parents| + env.outerDepth > env.maxDepth {
      return Halt(Failure(LimitExceeded)), known, billed, done;
    }
    IncludedCases(env, name, active, current, rest);
    if entity.value.None? {
      if !entity.external {
        return Pass(value, false), known, billed, done;
      }
      ExternalStep(env, whole, parents, done, value, skipped, billed, name, current, rest);
      var saved := SaveFrames(env, billed, parents + [current]);
      action := Halt(if saved then Success(Pending(value, skipped, parents + [current], name)) else Failure(LimitExceeded));
      return action, known, billed, done;
    }
    var replacement := entity.value.value;
    done := ChargeStep(env, whole, parents, done, value, skipped, billed, Len(replacement),
                       Then(Prepend([current], Replace(env, Entered(name, replacement), active + {name})), rest));
    billed := billed + [Expansion(Len(replacement))];
    if !env.allows(billed) {
      return Halt(Failure(LimitExceeded)), known, billed, done;
    }
    action := Into(name, replacement);
  }

  /** The part of the loop that meets any complete reference, already charged. */
  method IncludeReference(env: Context, reference: seq<LexChar>, parents: seq<Frame>, current: Frame,
                          active: set<string>, blockers: Option<set<string>>, value: string, skipped: bool, charges: seq<Charge>,
                          ghost whole: Meaning, ghost before: Meaning, ghost rest: Meaning)
    returns (action: Action, known: Option<set<string>>, billed: seq<Charge>, ghost done: Meaning)
    requires |reference| >= 2 && Initialized(env, blockers) && |active| == |parents|
    requires State(env, whole, parents, before, value, skipped, charges,
                   Then(Prepend([current], Reference(env, reference, active)), rest))
    ensures Initialized(env, known)
    ensures Acts(env, whole, parents, current, active, Scalars(Inner(reference)), action, done, value, skipped, billed, rest)
  {
    hide Len, Shown, Scalars, Replace, Reference, Parameter, Prepend, Then, State, Fits, Report, Charged, Stopped, Inner;
    hide Entered, IsParameter, IsNumeric, NamesEntity, References.CharacterReference, Initialized, Literal;
    ReferenceCases(env, reference, active, current, rest);
    known, billed, done := blockers, charges, before;
    var spelled := Shown(Inner(reference));
    if IsNumeric(reference) {
      SpelledNumber(reference);
      var decoded := References.CharacterReference(spelled);
      if decoded.Failure? {
        WrongStep(env, whole, parents, done, value, skipped, charges, decoded.error.0, rest);
        return Halt(Failure(decoded.error.0)), known, billed, done;
      }
      done := LiteralStep(env, whole, parents, done, value, skipped, charges, [Raw(decoded.value.value)], false, rest);
      var appended := AppendEntityValue(env, value, [Raw(decoded.value.value)], false);
      action := if appended.Success? then Pass(appended.value, false) else Halt(Failure(LimitExceeded));
      return action, known, billed, done;
    }
    if !NamesEntity(env, spelled) {
      WrongStep(env, whole, parents, done, value, skipped, charges, InvalidToken, rest);
      return Halt(Failure(InvalidToken)), known, billed, done;
    }
    if !IsParameter(reference) {
      done := LiteralStep(env, whole, parents, done, value, skipped, charges, reference, false, rest);
      var appended := AppendEntityValue(env, value, reference, false);
      action := if appended.Success? then Pass(appended.value, false) else Halt(Failure(LimitExceeded));
      return action, known, billed, done;
    }
    if env.internal {
      WrongStep(env, whole, parents, done, value, skipped, charges, ParameterEntityReference, rest);
      return Halt(Failure(ParameterEntityReference)), known, billed, done;
    }
    action, known, billed, done :=
      IncludeParameter(env, reference, parents, current, active, blockers, value, skipped, charges, whole, before, rest);
  }

  /** The text before the first reference of a frame is charged, then appended. */
  method IncludeText(env: Context, ghost parents: seq<Frame>, current: Frame, start: nat, ghost active: set<string>,
                     value: string, ghost skipped: bool, charges: seq<Charge>,
                     ghost whole: Meaning, ghost before: Meaning)
    returns (result: Result<string, ErrorKind>, billed: seq<Charge>, ghost done: Meaning)
    requires start == RefStart(Shown(current.rest))
    requires State(env, whole, parents, before, value, skipped, charges, Replace(env, current, active))
    ensures result.Failure? ==> Failure(result.error) == BuildResult(env, whole)
    ensures result.Success? ==>
      State(env, whole, parents, done, result.value, skipped, billed,
            if start == |current.rest| then NOTHING
            else AtReference(env, current.(rest := current.rest[start..]), active))
  {
    hide Len, Shown, Scalars, Replace, AtReference, Reference, Parameter, Prepend, Then, State, Fits, Report, Literal;
    hide Charged, Stopped, Counted, Billed, Entered, RefStart, StartsReference, Initialized;
    AtHead(env, current, active);
    var text := current.rest[..start];
    ghost var ahead := if start == |current.rest| then NOTHING
                       else AtReference(env, current.(rest := current.rest[start..]), active);
    done := CountStep(env, whole, parents, before, value, skipped, charges, current, Len(Shown(text)),
                      Then(Literal(text, current.normalize), ahead));
    billed := Billed(charges, current, Len(Shown(text)));
    if current.name.Some? && !env.allows(billed) {
      return Failure(LimitExceeded), billed, done;
    }
    done := LiteralStep(env, whole, parents, done, value, skipped, billed, text, current.normalize, ahead);
    result := AppendEntityValue(env, value, text, current.normalize);
  }

  /** `entity_value`: exactly the recursive replacement, or the refusal of a limit it does not fit.
      The loop ends for every table, cyclic or not. */
  method EntityValue(env: Context, raw: seq<LexChar>, normalize: bool) returns (result: Result<Build, ErrorKind>)
    ensures
      var whole := Replace(env, Frame(raw, None, normalize), {});
      result == BuildResult(env, whole)
  {
    hide Len, Shown, Scalars, Replace, AtReference, Reference, Parameter, Prepend, Then, State, Fits, Report, Literal;
    hide Charged, Stopped, Counted, Billed, Entered, Cost, StackCost, Proper, OpenNames, Inner, RefStart;
    hide ReferenceEnd, StartsReference, IsNumeric, IsParameter, NamesEntity, References.CharacterReference;
    hide Initialized, Plain;
    var value, skipped, charges := "", false, [];
    var parents: seq<Frame>, active: set<string> := [], {};
    var blockers: Option<set<string>> := None;
    var current := Frame(raw, None, normalize);
    ghost var whole := Replace(env, current, {});
    ghost var done := NOTHING;
    Beginning(env, current);
    while true
      invariant Proper(env, parents + [current]) && active == OpenNames(parents + [current])
      invariant State(env, whole, parents, done, value, skipped, charges, Replace(env, current, active))
      invariant Initialized(env, blockers)
      decreases StackCost(env, parents + [current])
    {
      ghost var before := current;
      CostAhead(env, current, active);
      var start := RefStart(Shown(current.rest));
      var included;
      included, charges, done :=
        IncludeText(env, parents, current, start, active, value, skipped, charges, whole, done);
      if included.Failure? {
        return Failure(included.error);
      }
      value := included.value;
      current := current.(rest := current.rest[start..]);
      if current.rest == [] {
        FinishStep(env, whole, parents, done, value, skipped, charges);
        if parents == [] {
          return Success(Complete(value, skipped));
        }
        Popped(env, parents, before);
        active := active - {current.name.value};
        current, parents := parents[|parents| - 1], parents[..|parents| - 1];
        continue;
      }
      AtDelimiter(env, current, active);
      var found := ReferenceEnd(current.rest);
      if found.None? {
        WrongStep(env, whole, parents, done, value, skipped, charges, InvalidToken, NOTHING);
        return Failure(InvalidToken);
      }
      var end := found.value;
      var reference := current.rest[..end + 1];
      ghost var after := current.(rest := current.rest[end + 1..]);
      ghost var rest := Replace(env, after, active);
      ghost var meant := Then(Prepend([after], Reference(env, reference, active)), rest);
      done := CountStep(env, whole, parents, done, value, skipped, charges, current, Len(Shown(reference)), meant);
      charges := Billed(charges, current, Len(Shown(reference)));
      if current.name.Some? && !env.allows(charges) {
        return Failure(LimitExceeded);
      }
      Moved(env, parents, before, after);
      OpenCount(env, parents + [before]);
      var action: Action;
      action, blockers, charges, done :=
        IncludeReference(env, reference, parents, current.(rest := current.rest[end + 1..]), active, blockers,
                         value, skipped, charges, whole, done, rest);
      current := current.(rest := current.rest[end + 1..]);
      match action {
        case Halt(verdict) => return verdict;
        case Pass(extended, missing) => value, skipped := extended, skipped || missing;
        case Into(name, replacement) =>
          EnterStep(env, whole, parents, done, value, skipped, charges, after,
                    Replace(env, Entered(name, replacement), active + {name}), active);
          Pushed(env, parents, before, after, name);
          active := active + {name};
          parents := parents + [current];
          current := Entered(name, replacement);
      }
    }
  }
}
