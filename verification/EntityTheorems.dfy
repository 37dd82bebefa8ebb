/** What entity values promise: bounds, recursion exactly, and line endings once. */
module EntityTheorems {
  import opened Unicode
  import opened Wrappers
  import opened Errors
  import opened Lexical
  import opened LexicalBuffer
  import opened EntityValues

  // -------------------------------------------------------------------- bounds

  predicate Bounded(m: Meaning, names: nat) { Len(m.value) <= m.peak && m.nesting <= names }

  lemma BoundedThen(a: Meaning, b: Meaning, names: nat)
    requires Bounded(a, names) && Bounded(b, names)
    ensures Bounded(Then(a, b), names)
  {
    LenConcat(a.value, b.value);
  }

  /** The value never outgrows what was checked, and the stack never outgrows the table. */
  lemma {:induction false} ReplaceBounded(env: Context, frame: Frame, open: set<string>)
    requires open <= env.entities.Keys
    ensures Bounded(Replace(env, frame, open), |env.entities|)
    decreases Free(env, open), |frame.rest|, 2
  {
    hide Len, Shown, Scalars, Normalize, Replace, Reference, AtReference, Parameter;
    EmptyLen();
    AtHead(env, frame, open);
    var n, names := RefStart(Shown(frame.rest)), |env.entities|;
    DecodedShorter(frame.rest[..n], frame.normalize);
    var literal := Literal(frame.rest[..n], frame.normalize);
    var ahead := NOTHING;
    if n < |frame.rest| {
      var at := frame.(rest := frame.rest[n..]);
      AtDelimiter(env, at, open);
      var end := ReferenceEnd(at.rest);
      if end.Some? {
        var reference, after := at.rest[..end.value + 1], at.(rest := at.rest[end.value + 1..]);
        ReferenceBounded(env, reference, open);
        ReplaceBounded(env, after, open);
        var meant := Prepend([after], Reference(env, reference, open));
        BoundedThen(meant, Replace(env, after, open), names);
        BoundedThen(Counted(at, Len(Shown(reference))), Then(meant, Replace(env, after, open)), names);
      }
      ahead := AtReference(env, at, open);
    }
    BoundedThen(literal, ahead, names);
    BoundedThen(Counted(frame, Len(Shown(frame.rest[..n]))), Then(literal, ahead), names);
  }

  lemma {:induction false} ReferenceBounded(env: Context, reference: seq<LexChar>, open: set<string>)
    requires |reference| >= 2 && open <= env.entities.Keys
    ensures Bounded(Reference(env, reference, open), |env.entities|)
    decreases Free(env, open), |reference|, 1
  {
    hide Len, Scalars, Normalize, Parameter, References.CharacterReference, NamesEntity;
    EmptyLen();
    DecodedShorter(reference, false);
    match References.CharacterReference(Shown(Inner(reference))) {
      case Success(Some(c)) => DecodedShorter([Raw(c)], false);
      case _ =>
    }
    var named := Parameter(env, Scalars(Inner(reference)), open);
    ParameterBounded(env, Scalars(Inner(reference)), open);
    BoundedThen(Charged(Expansion(Len(Shown(reference)) + env.frameBytes)), named, |env.entities|);
  }

  lemma {:induction false} ParameterBounded(env: Context, name: string, open: set<string>)
    requires open <= env.entities.Keys
    ensures Bounded(Parameter(env, name, open), |env.entities|)
    decreases Free(env, open), 0, 0
  {
    hide Len, Replace;
    EmptyLen();
    if name in env.entities && name !in open {
      SubsetSize(open + {name}, env.entities.Keys);
      var included := NOTHING;
      match env.entities[name].value {
        case None => included := Stopped(External(name, []));
        case Some(value) =>
          Opens(env, open, name);
          var inner := Replace(env, Entered(name, value), open + {name});
          ReplaceBounded(env, Entered(name, value), open + {name});
          BoundedThen(Charged(Expansion(Len(value))), inner, |env.entities|);
          included := Then(Charged(Expansion(Len(value))), inner);
      }
      BoundedThen(NOTHING.(nesting := |open| + 1), included, |env.entities|);
      BoundedThen(NOTHING.(nesting := |open| + 1), NOTHING, |env.entities|);
    }
  }

  /** A built value fits the token limit; a table that fits the depth limit is never refused for depth. */
  lemma ValueFits(env: Context, raw: seq<LexChar>, normalize: bool)
    ensures
      var m := Replace(env, Frame(raw, None, normalize), {});
      && (Fits(env, m) ==> Len(m.value) <= env.maxBytes)
      && (env.outerDepth + |env.entities| <= env.maxDepth + 1 ==>
           m.nesting == 0 || m.nesting - 1 + env.outerDepth <= env.maxDepth)
  {
    ReplaceBounded(env, Frame(raw, None, normalize), {});
  }

  // ----------------------------------------------------------------- recursion

  /** The name of a parameter reference. */
  function OwnName(reference: seq<LexChar>): seq<string>
    requires |reference| >= 2
  {
    if IsParameter(reference) then [Scalars(Inner(reference))] else []
  }

  /** The names of the parameter references of a text. */
  function ParameterNames(text: seq<LexChar>): seq<string>
    decreases |text|
  {
    var n := RefStart(Shown(text));
    if n == |text| then []
    else
      var at := text[n..];
      match ReferenceEnd(at)
      case None => []
      case Some(end) =>
        OwnName(at[..end + 1]) + ParameterNames(at[end + 1..])
  }

  /** Every reference of a text is complete and well spelled. */
  predicate WellSpelled(env: Context, text: seq<LexChar>)
    decreases |text|
  {
    var n := RefStart(Shown(text));
    n < |text| ==>
      var at := text[n..];
      match ReferenceEnd(at)
      case None => false
      case Some(end) => GoodReference(env, at[..end + 1]) && WellSpelled(env, at[end + 1..])
  }

  predicate GoodReference(env: Context, reference: seq<LexChar>)
    requires |reference| >= 2
  {
    if IsNumeric(reference) then References.CharacterReference(Shown(Inner(reference))).Success?
    else NamesEntity(env, Shown(Inner(reference)))
  }

  /** No error but recursion is possible anywhere in the table. */
  predicate Settled(env: Context) {
    !env.internal && forall name | name in env.entities ::
      var entity := env.entities[name];
      if entity.value.Some? then WellSpelled(env, Plain(entity.value.value)) else !entity.external
  }

  /** Names that refer to one another, starting in a text. */
  predicate Chain(env: Context, text: seq<LexChar>, path: seq<string>)
    decreases |path|
  {
    path == [] ||
    (path[0] in ParameterNames(text) &&
      (|path| == 1 ||
        (path[0] in env.entities && env.entities[path[0]].value.Some?
         && Chain(env, Plain(env.entities[path[0]].value.value), path[1..]))))
  }

  /** The last name may not be replaced: it is blocked, open, or was met before. */
  predicate Offends(env: Context, path: seq<string>, open: set<string>) {
    path != [] &&
    var k := |path| - 1;
    env.Blocked(path[k]) || path[k] in open || path[k] in path[..k]
  }

  /** How the stop of a replaced name bears on the stop of the text that names it. */
  predicate Stops(here: Stop, later: Stop, stop: Stop) {
    if here.Finished? then stop == later
    else stop != Finished && (here.Wrong? ==> stop == here) && (here.External? ==> stop.External?)
  }

  /** References that are not refused for their spelling or their place. */
  predicate Allowed(env: Context, reference: seq<LexChar>)
    requires |reference| >= 2
  {
    GoodReference(env, reference) && (IsParameter(reference) ==> !env.internal)
  }

  predicate Refused(stop: Stop) { stop.Wrong? && stop.kind != RecursiveEntityReference }

  lemma ReferenceStops(env: Context, reference: seq<LexChar>, open: set<string>, after: Frame, r: Meaning)
    requires |reference| >= 2
    ensures
      var stop := Then(Prepend([after], Reference(env, reference, open)), r).stop;
      if !Allowed(env, reference) then Refused(stop)
      else if !IsParameter(reference) then stop == r.stop
      else Stops(Parameter(env, Scalars(Inner(reference)), open).stop, r.stop, stop)
  {
    hide Len, Scalars, Shown, Normalize, Parameter, Reference, Inner, NamesEntity, References.CharacterReference;
    ReferenceCases(env, reference, open, after, r);
    if IsNumeric(reference) {
      SpelledNumber(reference);
      NumberErrors(Shown(Inner(reference)));
    }
  }

  lemma NumberErrors(spelled: string)
    ensures
      match References.CharacterReference(spelled)
      case Failure((kind, _)) => kind == InvalidToken || kind == BadCharacterReference
      case Success(_) => true
  {}

  /** What a frame's meaning stops with, piece by piece. */
  lemma StopsAt(env: Context, frame: Frame, open: set<string>)
    ensures
      var n := RefStart(Shown(frame.rest));
      var m := Replace(env, frame, open);
      if n == |frame.rest| then m.stop == Finished
      else
        var at := frame.rest[n..];
        StartsReference(at) &&
        match ReferenceEnd(at)
        case None => Refused(m.stop) && !WellSpelled(env, frame.rest)
        case Some(end) =>
          var reference, rest := at[..end + 1], at[end + 1..];
          var later := Replace(env, frame.(rest := rest), open).stop;
          && (WellSpelled(env, frame.rest) ==> GoodReference(env, reference) && WellSpelled(env, rest))
          && if !Allowed(env, reference) then Refused(m.stop)
             else if !IsParameter(reference) then m.stop == later
             else Stops(Parameter(env, Scalars(Inner(reference)), open).stop, later, m.stop)
  {
    hide Len, Scalars, Shown, Normalize, Replace, Reference, AtReference, Parameter, Inner, GoodReference, Stops;
    hide RefStart, StartsReference, ReferenceEnd;
    AtHead(env, frame, open);
    var n := RefStart(Shown(frame.rest));
    if n < |frame.rest| {
      var at := frame.(rest := frame.rest[n..]);
      AtDelimiter(env, at, open);
      var end := ReferenceEnd(at.rest);
      if end.Some? {
        var reference, after := at.rest[..end.value + 1], at.(rest := at.rest[end.value + 1..]);
        ReferenceStops(env, reference, open, after, Replace(env, after, open));
      }
    }
  }

  /** The names of a text are that of its first reference and those of what follows it. */
  lemma NamesFirst(text: seq<LexChar>)
    ensures
      var n := RefStart(Shown(text));
      if n == |text| || ReferenceEnd(text[n..]).None? then ParameterNames(text) == []
      else
        var at, end := text[n..], ReferenceEnd(text[n..]).value;
        |at[..end + 1]| >= 2 && ParameterNames(text) == OwnName(at[..end + 1]) + ParameterNames(at[end + 1..])
  {
    hide Scalars, Shown, RefStart, ReferenceEnd, IsParameter, Inner;
  }

  /** A chain after its first name. */
  predicate ChainOn(env: Context, path: seq<string>) {
    && path != []
    && (|path| > 1 ==> path[0] in env.entities && env.entities[path[0]].value.Some?
                       && Chain(env, Plain(env.entities[path[0]].value.value), path[1..]))
  }

  lemma ChainParts(env: Context, text: seq<LexChar>, path: seq<string>)
    requires path != []
    ensures Chain(env, text, path) <==> path[0] in ParameterNames(text) && ChainOn(env, path)
  {
    hide ParameterNames;
  }

  /** A value is refused as recursive only along a chain of references, whatever else the table
      holds; in a settled table nothing but recursion can stop it. */
  lemma {:induction false} FindChain(env: Context, frame: Frame, open: set<string>) returns (path: seq<string>)
    ensures
      var stop := Replace(env, frame, open).stop;
      && (stop == Wrong(RecursiveEntityReference) ==> Chain(env, frame.rest, path) && Offends(env, path, open))
      && (Settled(env) && WellSpelled(env, frame.rest) ==>
            stop == Finished || stop == Wrong(RecursiveEntityReference))
    decreases Free(env, open), |frame.rest|
  {
    hide Scalars, Shown, Normalize, Replace, WellSpelled, Chain, ChainOn, ParameterNames, Parameter, Inner;
    hide RefStart, StartsReference, ReferenceEnd, Free, GoodReference;
    StopsAt(env, frame, open);
    NamesFirst(frame.rest);
    var n := RefStart(Shown(frame.rest));
    path := [];
    if n < |frame.rest| && ReferenceEnd(frame.rest[n..]).Some? {
      var at := frame.rest[n..];
      var end := ReferenceEnd(at).value;
      var reference, after := at[..end + 1], frame.(rest := at[end + 1..]);
      var name := Scalars(Inner(reference));
      if IsParameter(reference) && Parameter(env, name, open).stop != Finished {
        path := FindInner(env, name, open);
      } else {
        path := FindChain(env, after, open);
        if path != [] { ChainParts(env, after.rest, path); }
      }
      if path != [] { ChainParts(env, frame.rest, path); }
    }
  }

  lemma {:induction false} FindInner(env: Context, name: string, open: set<string>) returns (path: seq<string>)
    requires Parameter(env, name, open).stop != Finished
    ensures Settled(env) ==> Parameter(env, name, open).stop == Wrong(RecursiveEntityReference)
    ensures Parameter(env, name, open).stop == Wrong(RecursiveEntityReference) ==>
      path != [] && path[0] == name && Offends(env, path, open) && ChainOn(env, path)
    decreases Free(env, open), 0
  {
    hide Scalars, Shown, Normalize, Replace, WellSpelled, Chain;
    path := [name];
    if !env.Blocked(name) && name !in open && env.entities[name].value.Some? {
      var entity := env.entities[name];
      Opens(env, open, name);
      var rest := FindChain(env, Entered(name, entity.value.value), open + {name});
      if rest != [] {
        path := [name] + rest;
        var k := |rest| - 1;
        assert path[k + 1] == rest[k] && path[1..] == rest && path[..k + 1] == [name] + rest[..k];
      }
    }
  }

  /** Behind a name that may be replaced a chain offends with that name open. */
  lemma OffendsLater(env: Context, path: seq<string>, open: set<string>)
    requires Offends(env, path, open) && !env.Blocked(path[0]) && path[0] !in open
    ensures |path| > 1 && Offends(env, path[1..], open + {path[0]})
  {
    var k := |path| - 1;
    if k > 0 {
      assert path[1..][k - 1] == path[k] && path[..k] == [path[0]] + path[1..][..k - 1];
    }
  }

  /** Any offending chain stops the value, if no earlier error or external entity did. */
  lemma {:induction false} ChainStops(env: Context, frame: Frame, open: set<string>, path: seq<string>)
    requires Chain(env, frame.rest, path) && Offends(env, path, open)
    ensures Replace(env, frame, open).stop != Finished
    decreases Free(env, open), |frame.rest|
  {
    hide Scalars, Shown, Normalize, Replace, WellSpelled, RefStart, StartsReference, ReferenceEnd, Free;
    hide ParameterNames, Chain, GoodReference, Inner;
    StopsAt(env, frame, open);
    NamesFirst(frame.rest);
    ChainParts(env, frame.rest, path);
    var n := RefStart(Shown(frame.rest));
    var at := frame.rest[n..];
    var end := ReferenceEnd(at).value;
    var reference, after := at[..end + 1], frame.(rest := at[end + 1..]);
    var name := Scalars(Inner(reference));
    if Allowed(env, reference) {
      if !IsParameter(reference) || (name != path[0] && Parameter(env, name, open).stop == Finished) {
        ChainParts(env, after.rest, path);
        ChainStops(env, after, open, path);
      } else if name == path[0] && !env.Blocked(name) && name !in open {
        OffendsLater(env, path, open);
        Opens(env, open, name);
        ChainStops(env, Entered(name, env.entities[name].value.value), open + {name}, path[1..]);
      }
    }
  }

  /** Some chain of references from a text repeats a name or reaches a blocked one. */
  ghost predicate Recursive(env: Context, text: seq<LexChar>) {
    exists path :: Chain(env, text, path) && Offends(env, path, {})
  }

  /** Section 4.1 of XML 1.0 (No Recursion), exactly and for every table: a value is refused as
      recursive only when it is, and a recursive value is never built. So, unless another error or an
      external entity comes first, it is refused as recursive when and only when it is; and nothing
      can come first in a settled table. */
  lemma RecursionExactly(env: Context, raw: seq<LexChar>, normalize: bool)
    ensures
      var stop := Replace(env, Frame(raw, None, normalize), {}).stop;
      && (stop == Wrong(RecursiveEntityReference) ==> Recursive(env, raw))
      && (Recursive(env, raw) ==> stop != Finished)
      && (Settled(env) && WellSpelled(env, raw) ==>
            stop == if Recursive(env, raw) then Wrong(RecursiveEntityReference) else Finished)
  {
    hide Replace, WellSpelled, Chain, Offends;
    var frame := Frame(raw, None, normalize);
    var found := FindChain(env, frame, {});
    if path :| Chain(env, raw, path) && Offends(env, path, {}) {
      ChainStops(env, frame, {}, path);
    }
  }

  // --------------------------------------------------------------- line endings

  /** A break between `\r` and `\n` is the only place where normalizing does not split. */
  lemma {:induction false} NormalizeSplits(a: seq<LexChar>, b: seq<LexChar>)
    requires a != [] && b != [] ==> !(a[|a| - 1] == Raw('\r') && b[0] == Raw('\n'))
    ensures Normalize(a + b) == Normalize(a) + Normalize(b)
    decreases |a|
  {
    if a == [] {
      assert a + b == b;
    } else if a[0] == Raw('\r') {
      var whole := a + b;
      var k := if |a| > 1 && a[1] == Raw('\n') then 2 else 1;
      assert |whole| > 1 && whole[1] == Raw('\n') <==> k == 2;
      assert whole[k..] == a[k..] + b;
      NormalizeSplits(a[k..], b);
      Associative([Raw('\n')], Normalize(a[k..]), Normalize(b));
    } else {
      assert (a + b)[1..] == a[1..] + b;
      NormalizeSplits(a[1..], b);
      Associative([a[0]], Normalize(a[1..]), Normalize(b));
    }
  }

  /** Normalizing neither makes nor removes any character but line ends. */
  lemma {:induction false} NormalizeKeeps(a: seq<LexChar>, c: LexChar)
    requires c != Raw('\r') && c != Raw('\n')
    ensures c in Normalize(a) <==> c in a
    decreases |a|
  {
    if a != [] {
      assert a == [a[0]] + a[1..];
      if a[0] == Raw('\r') {
        var rest := if |a| > 1 && a[1] == Raw('\n') then a[2..] else a[1..];
        NormalizeKeeps(rest, c);
        if |a| > 1 { assert a[1..] == [a[1]] + a[2..]; }
      } else {
        NormalizeKeeps(a[1..], c);
      }
    }
  }

  predicate Delimiter(c: char) { c == '&' || c == '%' || c == ';' }

  /** The delimiters a text shows are those its normalized form shows. */
  lemma ShowsSame(a: seq<LexChar>, c: char)
    requires Delimiter(c)
    ensures c in Shown(Normalize(a)) <==> c in Shown(a)
  {
    hide Normalize, Representative;
    if c in Shown(a) {
      var i: nat :| i < |a| && Shown(a)[i] == c;
      NormalizeKeeps(a, a[i]);
      var j: nat :| j < |Normalize(a)| && Normalize(a)[j] == a[i];
      assert Shown(Normalize(a))[j] == c;
    }
    if c in Shown(Normalize(a)) {
      var i: nat :| i < |Normalize(a)| && Shown(Normalize(a))[i] == c;
      NormalizeKeeps(a, Normalize(a)[i]);
      var j: nat :| j < |a| && a[j] == Normalize(a)[i];
      assert Shown(a)[j] == c;
    }
  }

  /** Normalizing a literal first keeps its references in place. */
  lemma NormalizedHead(text: seq<LexChar>)
    ensures
      var n, whole := RefStart(Shown(text)), Normalize(text);
      var head := Normalize(text[..n]);
      && RefStart(Shown(whole)) == |head| && whole[..|head|] == head && whole[|head|..] == Normalize(text[n..])
      && (n < |text| ==> StartsReference(text[n..]) && whole[|head|..] != [] && whole[|head|] == text[n])
  {
    hide Normalize, RefStart, Shown, Unmarked, EntityValues.Delimiter;
    var n := RefStart(Shown(text));
    var head, tail := Normalize(text[..n]), Normalize(text[n..]);
    FirstReference(text);
    assert text[..n] + text[n..] == text;
    NormalizeSplits(text[..n], text[n..]);
    QuietHead(text);
    if n < |text| { QuietTail(text[n..]); } else { NormalizeEmpty(); }
    RunThere(head, tail);
  }

  /** Normalizing makes no delimiters. */
  lemma QuietHead(text: seq<LexChar>)
    ensures
      var n := RefStart(Shown(text));
      && Unmarked(Normalize(text[..n]))
      && (n > 0 && n < |text| ==> !(text[n - 1] == Raw('\r') && text[n] == Raw('\n')))
  {
    hide Normalize;
    var n, head := RefStart(Shown(text)), Normalize(text[..RefStart(Shown(text))]);
    ShowsSame(text[..n], '&');
    ShowsSame(text[..n], '%');
    assert forall i: nat | i < n :: Shown(text[..n])[i] == Shown(text)[i];
    forall i: nat | i < |head| ensures !EntityValues.Delimiter(head[i]) { assert Shown(head)[i] == head[i].Shown(); }
    if n < |text| { assert Shown(text)[n] == text[n].Shown(); }
  }

  lemma QuietTail(text: seq<LexChar>)
    requires StartsReference(text)
    ensures Normalize(text) != [] && Normalize(text)[0] == text[0] && EntityValues.Delimiter(text[0])
  {
    hide Normalize;
    NormalizeFirst(text);
  }

  lemma NormalizeFirst(text: seq<LexChar>)
    requires text != [] && text[0] != Raw('\r')
    ensures Normalize(text) == [text[0]] + Normalize(text[1..])
  {}

  lemma NormalizeEmpty()
    ensures Normalize([]) == []
  {}

  /** Normalizing a reference and what follows it, piece by piece. */
  lemma NormalizedParts(text: seq<LexChar>, e: nat)
    requires 1 <= e < |text| && text[0] != Raw('\r') && text[e] != Raw('\r') && text[e] != Raw('\n')
    ensures
      var first := Normalize(text[..e + 1]);
      && first == [text[0]] + Normalize(text[1..e]) + [text[e]]
      && Normalize(text) == first + Normalize(text[e + 1..])
  {
    hide Normalize;
    var inner := text[1..e];
    assert text == text[..e + 1] + text[e + 1..] && text[..e + 1] == [text[0]] + inner + [text[e]];
    assert text[..e + 1][e] == text[e];
    NormalizeSplits(text[..e + 1], text[e + 1..]);
    assert ([text[0]] + inner) + [text[e]] == text[..e + 1];
    NormalizeSplits([text[0]] + inner, [text[e]]);
    NormalizeSplits([text[0]], inner);
    Single(text[0]);
    Single(text[e]);
  }

  /** The first `;` after normalizing closes the same reference. */
  lemma NormalizedEnd(opening: LexChar, inner: seq<LexChar>, closing: LexChar, rest: seq<LexChar>)
    requires opening.Shown() != ';' && closing.Shown() == ';' && ';' !in Shown(inner)
    ensures
      var first := [opening] + Normalize(inner) + [closing];
      References.Semicolon(Shown(first + rest)) == Some(|first| - 1)
  {
    hide Normalize, Representative;
    ShowsSame(inner, ';');
    var first := [opening] + Normalize(inner) + [closing];
    var whole, at := first + rest, |first| - 1;
    forall i: nat | i < at ensures Shown(whole)[i] != ';' {
      if i > 0 { assert whole[i] == Normalize(inner)[i - 1] && Shown(Normalize(inner))[i - 1] == Shown(whole)[i]; }
    }
    assert whole[at] == closing;
    References.SemicolonAt(Shown(whole), at);
  }

  lemma NormalizedReference(text: seq<LexChar>)
    requires StartsReference(text) && text[0] != Raw('\r')
    ensures StartsReference(Normalize(text))
    ensures
      match ReferenceEnd(text)
      case None => ReferenceEnd(Normalize(text)).None?
      case Some(end) =>
        var first := Normalize(text[..end + 1]);
        && ReferenceEnd(Normalize(text)) == Some(|first| - 1)
        && Normalize(text)[..|first|] == first && Normalize(text)[|first|..] == Normalize(text[end + 1..])
        && |first| >= 2 && first[0] == text[0]
        && Inner(first) == Normalize(Inner(text[..end + 1])) && text[end] != Raw('\r')
  {
    hide Normalize, Representative;
    NormalizeFirst(text);
    assert Normalize(text)[0] == text[0];
    var end := ReferenceEnd(text);
    if end.Some? {
      var e := end.value;
      assert text[e].Shown() == Shown(text)[e] == ';';
      assert forall i: nat | i < e - 1 :: Shown(text[1..e])[i] == Shown(text)[i + 1];
      NormalizedParts(text, e);
      NormalizedEnd(text[0], text[1..e], text[e], Normalize(text[e + 1..]));
      assert Inner(text[..e + 1]) == text[1..e];
    } else {
      ShowsSame(text, ';');
    }
  }

  lemma Single(c: LexChar)
    requires c != Raw('\r')
    ensures Normalize([c]) == [c]
  {}

  /** A reference with a line end inside is misspelled, normalized or not. */
  lemma BrokenReference(env: Context, reference: seq<LexChar>, open: set<string>, i: nat)
    requires |reference| >= 2 && i < |Inner(reference)|
    requires Inner(reference)[i] == Raw('\r') || Inner(reference)[i] == Raw('\n')
    ensures Reference(env, reference, open) == Stopped(Wrong(InvalidToken))
  {
    hide Scalars, Representative;
    var spelled := Shown(Inner(reference));
    var c := spelled[i];
    assert c == '\r' || c == '\n';
    if spelled[0] == '#' {
      assert References.Predefined(spelled).None?;
      var digits := References.Digits(spelled);
      assert digits[i - (|spelled| - |digits|)] == c;
    } else {
      assert !env.rules.IsName(spelled);
    }
  }

  /** What two frames agree on when they differ only in where line ends are normalized. */
  predicate Alike(a: Meaning, b: Meaning) {
    && a.value == b.value && a.skipped == b.skipped
    && match (a.stop, b.stop)
       case (External(x, _), External(y, _)) => x == y
       case (x, y) => x == y
  }

  lemma AlikeThen(a: Meaning, b: Meaning, c: Meaning, d: Meaning)
    requires Alike(a, c) && Alike(b, d)
    ensures Alike(Then(a, b), Then(c, d))
  {}

  /** Sections 2.11 and 4.5 of XML 1.0: normalizing only the text between references is the same
      as normalizing the whole literal first. */
  lemma {:induction false} LineEndings(env: Context, raw: seq<LexChar>, open: set<string>)
    ensures Alike(Replace(env, Frame(raw, None, true), open), Replace(env, Frame(Normalize(raw), None, false), open))
    decreases |raw|
  {
    hide Scalars, Shown, Normalize, Replace, AtReference, Reference, Inner;
    var a, b := Frame(raw, None, true), Frame(Normalize(raw), None, false);
    AtHead(env, a, open);
    AtHead(env, b, open);
    NormalizedHead(raw);
    NormalizeEmptyText(raw);
    var n := RefStart(Shown(raw));
    var m := RefStart(Shown(b.rest));
    var head, head2 := Literal(raw[..n], true), Literal(b.rest[..m], false);
    assert Alike(head, head2);
    if n < |raw| {
      var x, y := a.(rest := raw[n..]), b.(rest := b.rest[m..]);
      NotReturn(x.rest);
      AlikeReference(env, x, y, open);
      AlikeThen(head, AtReference(env, x, open), head2, AtReference(env, y, open));
    }
  }

  lemma NotReturn(text: seq<LexChar>)
    requires StartsReference(text)
    ensures text[0] != Raw('\r')
  {}

  lemma NormalizeEmptyText(raw: seq<LexChar>)
    ensures RefStart(Shown(raw)) == |raw| <==> RefStart(Shown(Normalize(raw))) == |Normalize(raw)|
  {
    NormalizedHead(raw);
    NormalizeEmpty();
  }

  lemma {:induction false} AlikeReference(env: Context, x: Frame, y: Frame, open: set<string>)
    requires x.name == y.name == None && x.normalize && !y.normalize && y.rest == Normalize(x.rest)
    requires StartsReference(x.rest) && StartsReference(y.rest) && x.rest[0] != Raw('\r')
    ensures Alike(AtReference(env, x, open), AtReference(env, y, open))
    decreases |x.rest|, 0
  {
    hide Scalars, Shown, Normalize, Replace, AtReference, Reference, Inner, Len, StartsReference, ReferenceEnd;
    AtDelimiter(env, x, open);
    AtDelimiter(env, y, open);
    NormalizedReference(x.rest);
    var end := ReferenceEnd(x.rest);
    if end.Some? {
      var e := end.value;
      var reference, after := x.rest[..e + 1], x.(rest := x.rest[e + 1..]);
      var first := Normalize(reference);
      var later := y.(rest := y.rest[|first|..]);
      SameReference(env, reference, open);
      LineEndings(env, after.rest, open);
      AlikeThen(Prepend([after], Reference(env, reference, open)), Replace(env, after, open),
                Prepend([later], Reference(env, first, open)), Replace(env, later, open));
    }
  }

  lemma SameReference(env: Context, reference: seq<LexChar>, open: set<string>)
    requires |reference| >= 2 && |Normalize(reference)| >= 2
    requires reference[0] != Raw('\r') && reference[|reference| - 1] != Raw('\r')
    requires Inner(Normalize(reference)) == Normalize(Inner(reference))
    ensures Reference(env, reference, open) == Reference(env, Normalize(reference), open)
  {
    hide Reference, Shown;
    if Raw('\r') in reference {
      var k: nat :| k < |reference| && reference[k] == Raw('\r');
      assert Inner(reference)[k - 1] == Raw('\r');
      BrokenReference(env, reference, open, k - 1);
      var j := MakesNewline(Inner(reference), k - 1);
      BrokenReference(env, Normalize(reference), open, j);
    } else {
      NormalizeQuiet(reference);
    }
  }

  lemma {:induction false} MakesNewline(a: seq<LexChar>, k: nat) returns (j: nat)
    requires k < |a| && a[k] == Raw('\r')
    ensures j < |Normalize(a)| && Normalize(a)[j] == Raw('\n')
    decreases |a|
  {
    if a[0] == Raw('\r') {
      j := 0;
    } else {
      j := MakesNewline(a[1..], k - 1);
      j := j + 1;
    }
  }
}
