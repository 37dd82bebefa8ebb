/** What lines are (section 2.11 of XML 1.0), said without counting: every text falls into lines with their
    breaks, and coordinates and normalization depend on nothing else. */
module LineLaws {
  import opened Positions
  import opened Lexical
  import opened LexicalBuffer

  datatype Break = LineFeed | Return | Both

  /** A line and the break behind it. */
  datatype Line<T> = Line(text: seq<T>, ending: Break)

  function Ending<T>(ending: Break, cr: T, lf: T): seq<T> {
    match ending
    case LineFeed => [lf]
    case Return => [cr]
    case Both => [cr, lf]
  }

  /** Lines with their breaks, and the line that has none. */
  function Joined<T>(lines: seq<Line<T>>, last: seq<T>, cr: T, lf: T): seq<T> {
    if lines == [] then last
    else lines[0].text + (Ending(lines[0].ending, cr, lf) + Joined(lines[1..], last, cr, lf))
  }

  predicate Unbroken<T(==)>(s: seq<T>, cr: T, lf: T) { cr !in s && lf !in s }

  /** Lines hold no breaks, and no return is one with the line feed behind it. */
  predicate AreLines<T(==)>(lines: seq<Line<T>>, last: seq<T>, cr: T, lf: T) {
    if lines == [] then Unbroken(last, cr, lf)
    else
      && Unbroken(lines[0].text, cr, lf)
      && (lines[0].ending.Return? && |lines| > 1 && lines[1].text == [] ==> !lines[1].ending.LineFeed?)
      && AreLines(lines[1..], last, cr, lf)
  }

  /** Every text falls into lines. */
  lemma {:induction false} FallsIntoLines<T(!new)>(s: seq<T>, cr: T, lf: T) returns (lines: seq<Line<T>>, last: seq<T>)
    requires cr != lf
    ensures AreLines(lines, last, cr, lf) && Joined(lines, last, cr, lf) == s
  {
    if s == [] {
      lines, last := [], [];
    } else {
      lines, last := FallsIntoLines(s[1..], cr, lf);
      assert s == [s[0]] + s[1..];
      if s[0] == lf {
        var first := Line([], LineFeed);
        AddLine(first, lines, last, cr, lf);
        lines := [first] + lines;
      } else if s[0] == cr {
        if lines != [] && lines[0] == Line([], LineFeed) {
          lines := JoinBreak(s[1..], lines, last, cr, lf);
        } else {
          var first := Line([], Return);
          AddLine(first, lines, last, cr, lf);
          lines := [first] + lines;
        }
      } else {
        lines, last := AddCharacter(s[0], s[1..], lines, last, cr, lf);
      }
    }
  }

  lemma AddLine<T(!new)>(first: Line<T>, lines: seq<Line<T>>, last: seq<T>, cr: T, lf: T)
    requires AreLines(lines, last, cr, lf) && first.text == []
    requires first.ending.Return? && lines != [] && lines[0].text == [] ==> !lines[0].ending.LineFeed?
    ensures AreLines([first] + lines, last, cr, lf)
    ensures Joined([first] + lines, last, cr, lf) == Ending(first.ending, cr, lf) + Joined(lines, last, cr, lf)
  {
    assert ([first] + lines)[1..] == lines;
    assert [] + (Ending(first.ending, cr, lf) + Joined(lines, last, cr, lf))
        == Ending(first.ending, cr, lf) + Joined(lines, last, cr, lf);
  }

  lemma JoinBreak<T(!new)>(s: seq<T>, lines: seq<Line<T>>, last: seq<T>, cr: T, lf: T) returns (all: seq<Line<T>>)
    requires lines != [] && lines[0] == Line([], LineFeed) && AreLines(lines, last, cr, lf)
    requires Joined(lines, last, cr, lf) == s
    ensures AreLines(all, last, cr, lf) && Joined(all, last, cr, lf) == [cr] + s
  {
    all := [Line([], Both)] + lines[1..];
    assert all[1..] == lines[1..];
    var rest := Joined(lines[1..], last, cr, lf);
    assert s == [] + ([lf] + rest) == [lf] + rest;
    assert [] + ([cr, lf] + rest) == [cr] + ([lf] + rest);
  }

  lemma AddCharacter<T(!new)>(c: T, s: seq<T>, lines: seq<Line<T>>, last: seq<T>, cr: T, lf: T)
    returns (all: seq<Line<T>>, end: seq<T>)
    requires c != cr && c != lf && AreLines(lines, last, cr, lf) && Joined(lines, last, cr, lf) == s
    ensures AreLines(all, end, cr, lf) && Joined(all, end, cr, lf) == [c] + s
  {
    if lines == [] {
      all, end := [], [c] + last;
    } else {
      var first := Line([c] + lines[0].text, lines[0].ending);
      all, end := [first] + lines[1..], last;
      assert all[1..] == lines[1..];
      var rest := Ending(first.ending, cr, lf) + Joined(lines[1..], last, cr, lf);
      assert ([c] + lines[0].text) + rest == [c] + (lines[0].text + rest);
    }
  }

  // ------------------------------------------------------------------ coordinates

  /** Where a text ends: as many lines further as it has breaks, and as many columns as its last line has
      characters. */
  lemma {:induction false} CountsLines(at: Coordinates, lines: seq<Line<char>>, last: string)
    requires AreLines(lines, last, '\r', '\n')
    requires at.previousCr ==> lines == [] || lines[0].text != [] || !lines[0].ending.LineFeed?
    ensures
      var to := Advance(at, Joined(lines, last, '\r', '\n'));
      to.line == at.line + |lines| && to.column == if lines == [] then at.column + |last| else |last|
    decreases |lines|
  {
    hide Advance;
    if lines == [] {
      AdvanceFlat(at, last);
    } else {
      var text, ending := lines[0].text, Ending(lines[0].ending, '\r', '\n');
      var rest := Joined(lines[1..], last, '\r', '\n');
      AdvanceFlat(at, text);
      AdvanceConcat(at, text, ending + rest);
      AdvanceConcat(Advance(at, text), ending, rest);
      OneBreak(Advance(at, text), lines[0].ending);
      CountsLines(Advance(Advance(at, text), ending), lines[1..], last);
    }
  }

  lemma OneBreak(at: Coordinates, ending: Break)
    requires at.previousCr ==> !ending.LineFeed?
    ensures
      var to := Advance(at, Ending(ending, '\r', '\n'));
      to.line == at.line + 1 && to.column == 0 && to.previousCr == ending.Return?
  {
    assert "\r\n"[1..] == "\n" && "\n"[1..] == "" && "\r"[1..] == "";
  }

  // ---------------------------------------------------------------- normalization

  function AllFeeds(lines: seq<Line<LexChar>>): (out: seq<Line<LexChar>>) {
    seq(|lines|, i requires 0 <= i < |lines| => Line(lines[i].text, LineFeed))
  }

  const CR := Raw('\r')
  const LF := Raw('\n')

  /** Normalization keeps the lines, and ends each with a line feed. Converted characters are no breaks. */
  lemma {:induction false} NormalizesLines(lines: seq<Line<LexChar>>, last: seq<LexChar>)
    requires AreLines(lines, last, CR, LF)
    ensures Normalize(Joined(lines, last, CR, LF)) == Joined(AllFeeds(lines), last, CR, LF)
    decreases |lines|
  {
    hide Normalize;
    if lines == [] {
      NormalizeQuiet(last);
      assert AllFeeds(lines) == [];
    } else {
      var rest := Joined(lines[1..], last, CR, LF);
      NormalizesLines(lines[1..], last);
      BehindReturn(lines, last);
      NormalizeBreak(lines[0].ending, rest);
      NormalizePrefix(lines[0].text, Ending(lines[0].ending, CR, LF) + rest);
      assert AllFeeds(lines)[1..] == AllFeeds(lines[1..]);
    }
  }

  /** What follows a return is no line feed. */
  lemma BehindReturn(lines: seq<Line<LexChar>>, last: seq<LexChar>)
    requires lines != [] && AreLines(lines, last, CR, LF)
    ensures
      var rest := Joined(lines[1..], last, CR, LF);
      lines[0].ending.Return? && rest != [] ==> rest[0] != LF
  {
    var rest := Joined(lines[1..], last, CR, LF);
    if |lines| > 1 {
      var next := lines[1];
      assert lines[1..][0] == next;
      assert rest == next.text + (Ending(next.ending, CR, LF) + Joined(lines[1..][1..], last, CR, LF));
      if next.text == [] {
        assert rest[0] == Ending(next.ending, CR, LF)[0];
      } else {
        assert rest[0] == next.text[0];
      }
    } else if rest != [] {
      assert rest[0] == last[0];
    }
  }

  lemma NormalizeBreak(ending: Break, rest: seq<LexChar>)
    requires ending.Return? && rest != [] ==> rest[0] != LF
    ensures Normalize(Ending(ending, CR, LF) + rest) == [LF] + Normalize(rest)
  {
    var all := Ending(ending, CR, LF) + rest;
    if ending.Both? { assert all[2..] == rest; } else { assert all[1..] == rest; }
  }

  lemma {:induction false} NormalizePrefix(text: seq<LexChar>, rest: seq<LexChar>)
    requires CR !in text
    ensures Normalize(text + rest) == text + Normalize(rest)
  {
    if text == [] {
      assert text + rest == rest && text + Normalize(rest) == Normalize(rest);
    } else {
      assert (text + rest)[1..] == text[1..] + rest;
      NormalizePrefix(text[1..], rest);
      assert [text[0]] + (text[1..] + Normalize(rest)) == text + Normalize(rest);
    }
  }
}
