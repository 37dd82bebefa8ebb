/** Which texts an ignored section ends behind (productions [63] to [65] of XML 1.0). */
module IgnoredGrammar {
  import opened Unicode
  import opened Wrappers
  import opened Names
  import opened IgnoredSections

  /** What an ignored section holds: text that neither opens nor closes a section, and sections in it. */
  datatype Contents = Stray(text: string) | Nested(text: string, inner: Contents, rest: Contents)

  function Print(c: Contents): string {
    match c
    case Stray(text) => text
    case Nested(text, inner, rest) => text + ("<![" + (Print(inner) + ("]]>" + Print(rest))))
  }

  predicate Occurs(text: string, pattern: string, i: nat) { i + |pattern| <= |text| && text[i..i + |pattern|] == pattern }

  predicate IsStray(text: string) {
    forall i: nat | i < |text| :: IsXmlChar(text[i]) && !Occurs(text, "<![", i) && !Occurs(text, "]]>", i)
  }

  predicate Legal(c: Contents) { IsStray(c.text) && (c.Nested? ==> Legal(c.inner) && Legal(c.rest)) }

  function Nesting(c: Contents): nat {
    match c
    case Stray(_) => 0
    case Nested(_, inner, rest) => Max(1 + Nesting(inner), Nesting(rest))
  }

  // --------------------------------------------------------------- reading pieces

  /** A scan in front of a text that begins with a piece. */
  lemma AtPiece(limits: Limits, text: string, depth: nat, bytes: nat)
    requires depth > 0 && text != ""
    ensures
      var p := First(text);
      Chars(p) <= |text| && Scan(limits, Pieces(text), depth, bytes) ==
        match Refusal(limits, p, depth, bytes)
        case Some(kind) => Failed(kind, bytes)
        case None =>
          if Deeper(p, depth) == 0 then Closed(bytes + Size(p))
          else Scan(limits, Pieces(text[Chars(p)..]), Deeper(p, depth), bytes + Size(p))
  {
    hide Refusal, Deeper, Size;
    assert Pieces(text)[1..] == Pieces(text[Chars(First(text))..]);
  }

  /** Text that neither opens nor closes is passed over, up to the next delimiter. */
  lemma {:induction false} StrayRead(limits: Limits, stray: string, tail: string, depth: nat, bytes: nat)
    requires depth > 0 && IsStray(stray) && (Starts(tail, "<![") || Starts(tail, "]]>"))
    requires bytes + Len(stray) <= limits.maxBytes
    ensures Scan(limits, Pieces(stray + tail), depth, bytes) == Scan(limits, Pieces(tail), depth, bytes + Len(stray))
    decreases |stray|
  {
    hide Scan, Pieces, Width;
    if stray == "" {
      assert stray + tail == tail;
    } else {
      StrayFirst(stray, tail);
      StrayRest(stray);
      AtPiece(limits, stray + tail, depth, bytes);
      assert (stray + tail)[1..] == stray[1..] + tail;
      StrayRead(limits, stray[1..], tail, depth, bytes + Width(stray[0]));
    }
  }

  lemma StrayFirst(stray: string, tail: string)
    requires IsStray(stray) && stray != "" && (Starts(tail, "<![") || Starts(tail, "]]>"))
    ensures First(stray + tail) == Other(stray[0]) && IsXmlChar(stray[0])
  {
    var all := stray + tail;
    assert tail[..3] == "<![" || tail[..3] == "]]>";
    assert tail[0] == tail[..3][0] && tail[1] == tail[..3][1];
    assert all[..3] == [all[0], all[1], all[2]];
    if |stray| >= 3 {
      assert all[..3] == stray[0..3];
      assert !Occurs(stray, "<![", 0) && !Occurs(stray, "]]>", 0);
    } else if |stray| == 2 {
      assert all[2] == tail[0];
    } else {
      assert all[1] == tail[0] && all[2] == tail[1];
    }
  }

  lemma StrayRest(stray: string)
    requires IsStray(stray) && stray != ""
    ensures IsStray(stray[1..])
  {
    forall i: nat | i < |stray| - 1
      ensures IsXmlChar(stray[1..][i]) && !Occurs(stray[1..], "<![", i) && !Occurs(stray[1..], "]]>", i)
    {
      if i + 3 < |stray| { assert stray[1..][i..i + 3] == stray[i + 1..i + 4]; }
      assert !Occurs(stray, "<![", i + 1) && !Occurs(stray, "]]>", i + 1);
    }
  }

  /** A delimiter is read as one piece. */
  lemma DelimiterRead(limits: Limits, delimiter: string, tail: string, depth: nat, bytes: nat)
    requires depth > 0 && (delimiter == "<![" || delimiter == "]]>") && bytes + 3 <= limits.maxBytes
    requires delimiter == "<![" ==> depth + limits.included < limits.maxDepth
    ensures Scan(limits, Pieces(delimiter + tail), depth, bytes) ==
      if delimiter == "<![" then Scan(limits, Pieces(tail), depth + 1, bytes + 3)
      else if depth == 1 then Closed(bytes + 3)
      else Scan(limits, Pieces(tail), depth - 1, bytes + 3)
  {
    var text := delimiter + tail;
    assert text[..3] == delimiter && text[3..] == tail;
    AtPiece(limits, text, depth, bytes);
  }

  /** Legal contents are read whole, and the delimiter behind them closes what was open. */
  lemma {:induction false} ContentsRead(limits: Limits, c: Contents, tail: string, depth: nat, bytes: nat)
    requires depth > 0 && Legal(c) && bytes + Len(Print(c)) + 3 <= limits.maxBytes
    requires Nesting(c) == 0 || depth - 1 + Nesting(c) + limits.included < limits.maxDepth
    ensures Scan(limits, Pieces(Print(c) + ("]]>" + tail)), depth, bytes) ==
      if depth == 1 then Closed(bytes + Len(Print(c)) + 3)
      else Scan(limits, Pieces(tail), depth - 1, bytes + Len(Print(c)) + 3)
    decreases c
  {
    hide Scan, Pieces, Len, IsStray;
    var close := "]]>" + tail;
    match c
    case Stray(text) =>
      StrayRead(limits, text, close, depth, bytes);
      DelimiterRead(limits, "]]>", tail, depth, bytes + Len(text));
    case Nested(text, inner, rest) =>
      var behind := Print(rest) + close;
      var inside := Print(inner) + ("]]>" + behind);
      NestedText(text, inner, rest, close);
      StrayRead(limits, text, "<![" + inside, depth, bytes);
      DelimiterRead(limits, "<![", inside, depth, bytes + Len(text));
      ContentsRead(limits, inner, behind, depth + 1, bytes + Len(text) + 3);
      ContentsRead(limits, rest, tail, depth, bytes + Len(text) + 3 + Len(Print(inner)) + 3);
  }

  lemma NestedText(text: string, inner: Contents, rest: Contents, close: string)
    ensures Print(Nested(text, inner, rest)) + close
         == text + ("<![" + (Print(inner) + ("]]>" + (Print(rest) + close))))
    ensures Len(Print(Nested(text, inner, rest))) == Len(text) + 3 + Len(Print(inner)) + 3 + Len(Print(rest))
  {
    hide Print;
    hide Len;
    PrintNested(text, inner, rest);
    var a, b := Print(inner), Print(rest);
    Associative(text, "<![" + (a + ("]]>" + b)), close);
    Associative("<![", a + ("]]>" + b), close);
    Associative(a, "]]>" + b, close);
    Associative("]]>", b, close);
    LenConcat(text, "<![" + (a + ("]]>" + b)));
    LenConcat("<![", a + ("]]>" + b));
    LenConcat(a, "]]>" + b);
    LenConcat("]]>", b);
    AsciiLen("<![");
    AsciiLen("]]>");
  }

  lemma PrintNested(text: string, inner: Contents, rest: Contents)
    ensures Print(Nested(text, inner, rest)) == text + ("<![" + (Print(inner) + ("]]>" + Print(rest))))
  {}

  // ------------------------------------------------------------- and back again

  /** What was read when a section closes. */
  lemma {:induction false} ContentsFound(limits: Limits, text: string, depth: nat, bytes: nat, at: nat)
    returns (c: Contents, tail: string)
    requires depth > 0 && Scan(limits, Pieces(text), depth, bytes) == Closed(at)
    ensures Legal(c) && text == Print(c) + ("]]>" + tail) && bytes + Len(Print(c)) + 3 <= limits.maxBytes
    ensures Nesting(c) == 0 || depth - 1 + Nesting(c) + limits.included < limits.maxDepth
    ensures if depth == 1 then at == bytes + Len(Print(c)) + 3
            else Scan(limits, Pieces(tail), depth - 1, bytes + Len(Print(c)) + 3) == Closed(at)
    decreases |text|
  {
    hide Scan, Pieces, Len, Width;
    NothingCloses(limits, text, depth, bytes, at);
    AtPiece(limits, text, depth, bytes);
    LenNothing();
    match First(text)
    case Closes =>
      c, tail := Stray(""), text[3..];
      assert text == "]]>" + text[3..] && "" + ("]]>" + tail) == "]]>" + tail;
    case Opens =>
      assert text == "<![" + text[3..];
      var inner, behind := ContentsFound(limits, text[3..], depth + 1, bytes + 3, at);
      var rest;
      rest, tail := ContentsFound(limits, behind, depth, bytes + 3 + Len(Print(inner)) + 3, at);
      c := Nested("", inner, rest);
      NestedText("", inner, rest, "]]>" + tail);
      assert "" + text == text;
    case Other(character) =>
      var later;
      later, tail := ContentsFound(limits, text[1..], depth, bytes + Width(character), at);
      assert text == [character] + text[1..];
      c := WithCharacter(character, later, "]]>" + tail);
      assert [character] + (Print(later) + ("]]>" + tail)) == ([character] + Print(later)) + ("]]>" + tail);
  }

  lemma NothingCloses(limits: Limits, text: string, depth: nat, bytes: nat, at: nat)
    requires depth > 0 && Scan(limits, Pieces(text), depth, bytes) == Closed(at)
    ensures text != ""
  {}

  lemma LenNothing()
    ensures Len("") == 0
  {}

  /** One more character in front. */
  lemma WithCharacter(character: char, later: Contents, close: string) returns (c: Contents)
    requires Legal(later) && IsXmlChar(character)
    requires First([character] + (Print(later) + close)) == Other(character)
    ensures Legal(c) && Nesting(c) == Nesting(later) && Print(c) == [character] + Print(later)
    ensures Len(Print(c)) == Width(character) + Len(Print(later))
  {
    hide Len, First, IsStray;
    var text := [character] + later.text;
    LenConcat([character], Print(later));
    SingleLen(character);
    TextFirst(later);
    StrayMore(character, later.text, Print(later) + close);
    match later {
      case Stray(_) => c := Stray(text);
      case Nested(_, inner, rest) =>
        c := Nested(text, inner, rest);
        var behind := "<![" + (Print(inner) + ("]]>" + Print(rest)));
        assert text + behind == [character] + (later.text + behind);
    }
  }

  lemma TextFirst(c: Contents)
    ensures c.text <= Print(c)
  {}

  lemma StrayMore(character: char, stray: string, whole: string)
    requires IsStray(stray) && IsXmlChar(character) && stray <= whole && First([character] + whole) == Other(character)
    ensures IsStray([character] + stray)
  {
    hide Occurs, First;
    var text := [character] + stray;
    assert text <= [character] + whole;
    NotFirst(text, [character] + whole);
    forall i: nat | i < |text| ensures IsXmlChar(text[i]) && !Occurs(text, "<![", i) && !Occurs(text, "]]>", i) {
      if i > 0 {
        assert text[i] == stray[i - 1];
        OccursLater(character, stray, "<![", i);
        OccursLater(character, stray, "]]>", i);
      }
    }
  }

  lemma OccursLater(character: char, stray: string, pattern: string, i: nat)
    requires i > 0
    ensures Occurs([character] + stray, pattern, i) == Occurs(stray, pattern, i - 1)
  {
    var text := [character] + stray;
    if i + |pattern| <= |text| { assert text[i..i + |pattern|] == stray[i - 1..i - 1 + |pattern|]; }
  }

  lemma NotFirst(text: string, whole: string)
    requires text != "" && text <= whole && First(whole).Other?
    ensures !Occurs(text, "<![", 0) && !Occurs(text, "]]>", 0)
  {
    if |text| >= 3 { assert text[0..3] == whole[..3]; }
  }

  lemma SingleLen(c: char)
    ensures Len([c]) == Width(c)
  {
    assert [c][1..] == "" && Len("") == 0;
  }

  /** A section closes exactly behind the `]]>` that legal contents stand in front of, when they and it fit
      the limits. */
  ghost predicate Holds(limits: Limits, text: string, at: nat, c: Contents, tail: string) {
    && Legal(c) && text == Print(c) + ("]]>" + tail) && at == Len(Print(c)) + 3 <= limits.maxBytes
    && (Nesting(c) == 0 || Nesting(c) + limits.included < limits.maxDepth)
  }

  lemma ClosesExactly(limits: Limits, text: string, at: nat)
    ensures Scan(limits, Pieces(text), 1, 0) == Closed(at) <==> exists c, tail :: Holds(limits, text, at, c, tail)
  {
    hide Scan, Pieces, Print, Legal, Nesting, Len;
    if Scan(limits, Pieces(text), 1, 0) == Closed(at) {
      var c, tail := ContentsFound(limits, text, 1, 0, at);
      assert Holds(limits, text, at, c, tail);
    }
    if c, tail :| Holds(limits, text, at, c, tail) { ContentsRead(limits, c, tail, 1, 0); }
  }
}
