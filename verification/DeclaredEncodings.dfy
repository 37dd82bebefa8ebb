/** Which encoding a document is read in, by what its first bytes say literally (encoding.rs; section 4.3.3
    of XML 1.0). */
module DeclaredEncodings {
  import opened Unicode
  import opened Wrappers
  import opened Errors
  import opened Names
  import opened Positions
  import opened Sources
  import opened Codecs
  import opened Detection
  import opened CharacterSpellings

  // ------------------------------------------------------------- the declaration

  /** An XML declaration that names an encoding, up to its `?>`. */
  datatype Declaration =
    Declaration(before: string, gap: string, inner: string, quote: char, name: string, after: string)
  {
    /** The text up to the name. */
    function Prefix(): string { before + "encoding" + gap + "=" + inner + [quote] }

    function Text(): string { Prefix() + name + [quote] + after }
  }

  predicate Occurs(s: string, pattern: string, i: nat) { i + |pattern| <= |s| && s[i..i + |pattern|] == pattern }

  predicate Nowhere(s: string, pattern: string) { forall i: nat | i < |s| :: !Occurs(s, pattern, i) }

  /** `<?xml` and whitespace. */
  predicate OpensText(s: string) {
    |s| >= 6 && s[..5] == "<?xml" && (s[5] == ' ' || s[5] == '\t' || s[5] == '\n' || s[5] == '\r' || s[5] == '\U{C}')
  }

  predicate IsDeclaration(d: Declaration) {
    && OpensText(d.before) && Blank(d.gap) && Blank(d.inner)
    && (d.quote == '\'' || d.quote == '"') && d.quote !in d.name
    && (forall i: nat | i < |d.before| :: !Occurs(d.Text(), "encoding", i))
    && Nowhere(d.Text(), "?>")
  }

  /** Production [81] of XML 1.0. */
  predicate IsEncodingName(name: string) {
    && name != "" && IsLetter(name[0])
    && forall i: nat | i < |name| :: IsLetter(name[i]) || '0' <= name[i] <= '9' || name[i] in "._-"
  }

  predicate IsLetter(c: char) { 'a' <= c <= 'z' || 'A' <= c <= 'Z' }

  /** ASCII that means the same under every custom map. */
  predicate IsInvariant(s: string) { forall i: nat | i < |s| :: InvariantAt(s[i]) }

  predicate InvariantAt(c: char) { c in "\t\n\r" || (' ' <= c < '\U{7F}' && c !in "$@\\^`{}~") }

  /** The names the parser knows, in any case. */
  function KnownAs(name: string): Option<Encoding> {
    var lower := Lowered(name);
    if lower == "utf-8" then Some(Utf8Encoding)
    else if lower == "utf-16le" then Some(Utf16Le)
    else if lower == "utf-16be" then Some(Utf16Be)
    else if lower == "iso-8859-1" then Some(Latin1)
    else if lower == "us-ascii" || lower == "ascii" then Some(Ascii)
    else None
  }

  /** Names that no document read byte by byte can have. */
  predicate IsWide(name: string) { Lowered(name) in ["utf-16", "utf-16le", "utf-16be"] }

  // ---------------------------------------------------------------- names in any case

  lemma LowerSame(c: char)
    ensures Lower(c) == LowerCase(c)
  {}

  lemma SameExactly(a: string, b: string)
    ensures SameName(a, b) <==> Lowered(a) == Lowered(b)
  {
    if |a| == |b| {
      forall i: nat | i < |a| ensures Lower(a[i]) == Lowered(a)[i] && Lower(b[i]) == Lowered(b)[i] {
        LowerSame(a[i]);
        LowerSame(b[i]);
      }
    }
  }

  lemma KnownExactly(name: string)
    ensures Named(name) == KnownAs(name)
    ensures SameName(name, "UTF-16") <==> Lowered(name) == "utf-16"
  {
    hide SameName, Lowered;
    LoweredNames();
    SameExactly(name, "UTF-8");
    SameExactly(name, "UTF-16");
    SameExactly(name, "UTF-16LE");
    SameExactly(name, "UTF-16BE");
    SameExactly(name, "ISO-8859-1");
    SameExactly(name, "US-ASCII");
    SameExactly(name, "ASCII");
  }

  lemma LoweredNames()
    ensures Lowered("UTF-8") == "utf-8" && Lowered("UTF-16") == "utf-16"
    ensures Lowered("UTF-16LE") == "utf-16le" && Lowered("UTF-16BE") == "utf-16be"
    ensures Lowered("ISO-8859-1") == "iso-8859-1" && Lowered("US-ASCII") == "us-ascii" && Lowered("ASCII") == "ascii"
  {}

  // ------------------------------------------------------------ finding the name

  lemma {:induction false} FindFirst(s: string, pattern: string, at: nat)
    requires pattern != "" && Occurs(s, pattern, at) && forall i: nat | i < at :: !Occurs(s, pattern, i)
    ensures Find(s, pattern) == Some(at)
  {
    if at > 0 {
      assert !Occurs(s, pattern, 0);
      assert s[1..][at - 1..at - 1 + |pattern|] == s[at..at + |pattern|];
      forall i: nat | i < at - 1 ensures !Occurs(s[1..], pattern, i) {
        if i + 1 + |pattern| <= |s| { assert s[1..][i..i + |pattern|] == s[i + 1..i + 1 + |pattern|]; }
        assert !Occurs(s, pattern, i + 1);
      }
      FindFirst(s[1..], pattern, at - 1);
    } else {
      assert s[..|pattern|] == pattern;
    }
  }

  lemma {:induction false} FindNowhere(s: string, pattern: string)
    requires pattern != "" && Nowhere(s, pattern)
    ensures Find(s, pattern) == None
  {
    if |s| >= |pattern| {
      assert !Occurs(s, pattern, 0);
      forall i: nat | i < |s[1..]| ensures !Occurs(s[1..], pattern, i) {
        if i + 1 + |pattern| <= |s| { assert s[1..][i..i + |pattern|] == s[i + 1..i + 1 + |pattern|]; }
        assert !Occurs(s, pattern, i + 1);
      }
      FindNowhere(s[1..], pattern);
    }
  }

  lemma {:induction false} TrimBlanks(blanks: string, rest: string)
    requires Blank(blanks) && rest != "" && !Whitespace(rest[0])
    ensures TrimStart(blanks + rest) == rest
  {
    if blanks == "" {
      assert blanks + rest == rest;
    } else {
      assert (blanks + rest)[1..] == blanks[1..] + rest;
      TrimBlanks(blanks[1..], rest);
    }
  }

  /** Everything behind the word `encoding`, in two groupings. */
  lemma Parts(d: Declaration)
    ensures
      var value := [d.quote] + (d.name + ([d.quote] + d.after));
      && d.Text() == d.before + ("encoding" + (d.gap + ("=" + (d.inner + value))))
      && d.Text() == d.Prefix() + (d.name + ([d.quote] + d.after)) && |d.Prefix()| == |d.Text()| - |value| + 1
  {
    var value := [d.quote] + (d.name + ([d.quote] + d.after));
    assert d.Text() == d.before + ("encoding" + (d.gap + ("=" + (d.inner + value))));
  }

  lemma NameFound(d: Declaration)
    requires IsDeclaration(d)
    ensures DeclaredName(d.Text()) == Some((d.name, d.Prefix()))
  {
    hide Find, TrimStart, Declaration.Text, Declaration.Prefix;
    var value := [d.quote] + (d.name + ([d.quote] + d.after));
    var equals := "=" + (d.inner + value);
    Parts(d);
    BehindWord(d.before, d.gap + equals);
    FindFirst(d.Text(), "encoding", |d.before|);
    TrimBlanks(d.gap, equals);
    assert equals[1..] == d.inner + value;
    TrimBlanks(d.inner, value);
    QuoteFound(d.name, d.quote, d.after);
    BehindQuote(d.name, d.quote, d.after);
    assert d.Text()[..|d.Prefix()|] == d.Prefix();
  }

  lemma BehindWord(before: string, behind: string)
    ensures Occurs(before + ("encoding" + behind), "encoding", |before|)
    ensures (before + ("encoding" + behind))[|before| + 8..] == behind
  {
    var text, tail := before + ("encoding" + behind), "encoding" + behind;
    assert text[|before|..] == tail && tail[..8] == "encoding" && tail[8..] == behind;
    assert text[|before|..|before| + 8] == text[|before|..][..8];
    assert text[|before| + 8..] == text[|before|..][8..];
  }

  lemma BehindQuote(name: string, quote: char, after: string)
    ensures
      var value := [quote] + (name + ([quote] + after));
      value[0] == quote && value[1..] == name + ([quote] + after) && value[1..|name| + 1] == name
  {
    var value := [quote] + (name + ([quote] + after));
    assert value[1..] == name + ([quote] + after);
    assert value[1..|name| + 1] == value[1..][..|name|];
  }

  lemma QuoteFound(name: string, quote: char, after: string)
    requires quote !in name
    ensures Find(name + ([quote] + after), [quote]) == Some(|name|)
  {
    hide Find;
    var tail := name + ([quote] + after);
    forall i: nat | i < |tail| ensures Occurs(tail, [quote], i) <==> tail[i] == quote {
      assert tail[i..i + 1] == [tail[i]];
    }
    assert tail[|name|] == quote && forall i: nat | i < |name| :: tail[i] == name[i];
    FindFirst(tail, [quote], |name|);
  }

  // ---------------------------------------------------------------- finding its end

  /** An ASCII byte of a text is a character of it. */
  lemma {:induction false} AsciiThere(s: string, i: nat) returns (k: nat)
    requires i < Len(s) && Utf8(s)[i] < 0x80
    ensures k < |s| && Len(s[..k]) == i && s[k] as int == Utf8(s)[i]
  {
    var w, rest := Width(s[0]), Utf8(s[1..]);
    LeadByte(s[0]);
    assert Utf8(s) == Encode(s[0]) + rest;
    if i < w {
      assert Utf8(s)[i] == Encode(s[0])[i];
      k := 0;
    } else {
      assert Utf8(s)[i] == rest[i - w];
      k := AsciiThere(s[1..], i - w);
      assert s[..k + 1][1..] == s[1..][..k];
      k := k + 1;
    }
  }

  lemma AsciiPair(s: string, i: nat)
    requires i + 2 <= Len(s) && Utf8(s)[i] < 0x80 && Utf8(s)[i + 1] < 0x80
    ensures exists k: nat | k + 1 < |s| :: s[k] as int == Utf8(s)[i] && s[k + 1] as int == Utf8(s)[i + 1]
  {
    var k := AsciiThere(s, i);
    var l := AsciiThere(s, i + 1);
    OffsetStep(s, k);
    if l < k { OffsetsIncrease(s, l, k); }
    if k + 1 < l { OffsetsIncrease(s, k + 1, l); }
    assert l == k + 1;
  }

  /** The first `?>` of a declaration and what follows it is the declaration's own. */
  lemma CloseFound(text: string, rest: seq<Byte>)
    requires Nowhere(text, "?>")
    ensures FindClose(Utf8(text) + (['?' as int, '>' as int] + rest), 0) == Some(Len(text))
  {
    var content, n := Utf8(text) + (['?' as int, '>' as int] + rest), Len(text);
    assert IsClose(content, n);
    forall i: nat | i < n ensures !IsClose(content, i) {
      assert content[i] == Utf8(text)[i];
      if i + 1 < n {
        assert content[i + 1] == Utf8(text)[i + 1];
        NoPair(text, i);
      }
    }
  }

  lemma NoPair(text: string, i: nat)
    requires Nowhere(text, "?>") && i + 2 <= Len(text)
    ensures !(Utf8(text)[i] == '?' as int && Utf8(text)[i + 1] == '>' as int)
  {
    hide Utf8, Occurs, Len;
    forall k: nat | k + 1 < |text| ensures !(text[k] == '?' && text[k + 1] == '>') {
      PairOccurs(text, k);
    }
    if Utf8(text)[i] == '?' as int && Utf8(text)[i + 1] == '>' as int { AsciiPair(text, i); }
  }

  lemma PairOccurs(text: string, k: nat)
    ensures Occurs(text, "?>", k) <==> k + 1 < |text| && text[k] == '?' && text[k + 1] == '>'
  {
    if k + 1 < |text| { assert text[k..k + 2] == [text[k], text[k + 1]]; }
  }

  lemma TextBack(text: string)
    ensures Detection.Text(Utf8(text)) == Some(text)
  {
    hide Decode;
    var codec := Codec(Utf8Encoding, [], _ => 0, FifthEdition);
    Utf8RoundTrip(codec, text);
  }

  lemma OpensThere(text: string, more: seq<Byte>)
    requires OpensText(text)
    ensures OpensDeclaration(Utf8(text) + more)
    ensures (Utf8(text) + more)[0] == '<' as int && (Utf8(text) + more)[1] == '?' as int
    ensures !StartsWith(XML_DECL, Utf8(text) + more)
  {
    var opening := text[..6];
    assert text == opening + text[6..];
    Utf8Concat(opening, text[6..]);
    assert opening == "<?xml" + [text[5]];
    SixBytes(text[5]);
    assert |XML_DECL| == 5;
  }

  lemma SixBytes(c: char)
    requires IsAscii(c)
    ensures Utf8("<?xml" + [c]) == [0x3C, 0x3F, 0x78, 0x6D, 0x6C, c as int]
  {
    var s := "<?xml" + [c];
    AsciiLen(s);
    forall i: nat | i < 6 ensures Utf8(s)[i] == s[i] as int { AsciiByte(s, i); }
  }

  lemma {:induction false} AsciiByte(s: string, i: nat)
    requires (forall j: nat | j < |s| :: IsAscii(s[j])) && i < |s|
    ensures i < |Utf8(s)| && Utf8(s)[i] == s[i] as int
  {
    LeadByte(s[0]);
    assert Utf8(s) == [s[0] as int] + Utf8(s[1..]);
    if i > 0 { AsciiByte(s[1..], i - 1); }
  }

  // -------------------------------------------------------------------- the answer

  /** What a document with this declaration is read in, behind a mark of UTF-8 or none. A name that is
      none is left to the parser, as is a declaration that is wrong in every encoding it could name. */
  function DeclaredAs(settings: Settings, marked: bool, d: Declaration): Choice {
    var skip := if marked then 3 else 0;
    var at := Advance(Coordinates(1, if marked then 1 else 0, false), d.Prefix());
    var place := Some(Position(skip + Len(d.Prefix()), at.line, at.column, 0));
    var known := KnownAs(d.name);
    if !IsEncodingName(d.name) then Chosen(Utf8Encoding, skip)
    else if IsWide(d.name) then Rejected(IncorrectEncoding, None, place)
    else if known == Some(Utf8Encoding) then Chosen(Utf8Encoding, skip)
    else if known.None? && IsInvariant(d.Text()) && settings.malformed(d.Text()[5..]) then Chosen(Utf8Encoding, skip)
    else if marked && !settings.allowBomMismatch then Rejected(IncorrectEncoding, None, place)
    else if known.None? then Rejected(UnknownEncoding, Some(d.name), place)
    else Chosen(known.value, skip)
  }

  lemma NameExactly(name: string)
    ensures ValidEncodingName(name) <==> IsEncodingName(name)
  {}

  lemma InvariantExactly(s: string)
    ensures (forall i: nat | i < |Utf8(s)| :: RequiredAscii(Utf8(s)[i])) <==> IsInvariant(s)
  {
    if forall i: nat | i < |Utf8(s)| :: RequiredAscii(Utf8(s)[i]) {
      AsciiBytes(s, Len(s));
      forall i: nat | i < |s| ensures InvariantAt(s[i]) {
        assert RequiredAscii(Utf8(s)[i]);
        InvariantCharacter(s[i]);
      }
    }
    if IsInvariant(s) {
      forall i: nat | i < |s| ensures IsAscii(s[i]) { assert InvariantAt(s[i]); }
      AsciiLen(s);
      forall i: nat | i < |Utf8(s)| ensures RequiredAscii(Utf8(s)[i]) {
        AsciiByte(s, i);
        InvariantCharacter(s[i]);
      }
    }
  }

  lemma InvariantCharacter(c: char)
    ensures RequiredAscii(c as int) <==> InvariantAt(c)
  {}

  lemma DeclaredByName(settings: Settings, marked: bool, d: Declaration)
    requires IsDeclaration(d)
    ensures Declared(settings, if marked then 3 else 0, Utf8(d.Text())) == DeclaredAs(settings, marked, d)
  {
    hide IsDeclaration, Find, Declaration.Text, Declaration.Prefix, SameName, Lowered, ValidEncodingName, IsEncodingName;
    hide IsInvariant, Advance, RequiredAscii, DeclaredName, Detection.Text;
    TextBack(d.Text());
    NameFound(d);
    KnownExactly(d.name);
    NameExactly(d.name);
    InvariantExactly(d.Text());
    LongEnough(d);
  }

  lemma LongEnough(d: Declaration)
    requires IsDeclaration(d)
    ensures |d.Text()| >= 5
  {}

  /** A document is read in what its declaration says, literally, whatever follows. */
  lemma DeclaredExactly(settings: Settings, mark: seq<Byte>, d: Declaration, rest: seq<Byte>, final: bool)
    requires settings.requested.None? && (mark == [] || mark == UTF8_BOM) && IsDeclaration(d)
    ensures Detect(settings, mark + (Utf8(d.Text()) + (['?' as int, '>' as int] + rest)), final)
         == if Len(d.Text()) + 2 > settings.maxToken then Rejected(LimitExceeded, None, None)
            else DeclaredAs(settings, mark != [], d)
  {
    hide Declared, DeclaredAs, IsDeclaration, Nowhere, Declaration.Text, FindClose, OpensDeclaration, StartsWith;
    var close: seq<Byte> := ['?' as int, '>' as int] + rest;
    var content := Utf8(d.Text()) + close;
    DeclarationOpens(d);
    OpensThere(d.Text(), close);
    CloseFound(d.Text(), rest);
    assert content[..Len(d.Text())] == Utf8(d.Text());
    DeclaredByName(settings, mark != [], d);
    FirstBytes(settings, mark, content);
    assert (mark + content)[|mark|..] == content;
  }

  lemma DeclarationOpens(d: Declaration)
    requires IsDeclaration(d)
    ensures OpensText(d.Text()) && Nowhere(d.Text(), "?>")
  {
    Parts(d);
    var behind := "encoding" + (d.gap + ("=" + (d.inner + ([d.quote] + (d.name + ([d.quote] + d.after))))));
    assert d.Text() == d.before + behind;
    assert (d.before + behind)[..5] == d.before[..5] && (d.before + behind)[5] == d.before[5];
  }

  /** Markup in bytes, and the mark of UTF-8 before it, are no other signature. */
  lemma FirstBytes(settings: Settings, mark: seq<Byte>, content: seq<Byte>)
    requires |content| >= 2 && content[0] == '<' as int && content[1] == '?' as int && (mark == [] || mark == UTF8_BOM)
    ensures Signature(mark + content, settings.externalContent, None)
         == if mark == [] then (None, 0) else (Some(Utf8Encoding), 3)
    ensures SignatureSettled(mark + content)
  {
    var all := mark + content;
    if mark == [] {
      assert all == content;
      assert |all| >= 3 ==> all[..3][0] == all[0];
      assert all[..2][0] == all[0];
    } else {
      assert all[..3] == mark;
    }
  }

  /** A declaration that names no encoding leaves UTF-8. */
  lemma UnnamedUtf8(settings: Settings, mark: seq<Byte>, text: string, rest: seq<Byte>, final: bool)
    requires settings.requested.None? && (mark == [] || mark == UTF8_BOM) && OpensText(text)
    requires Nowhere(text, "?>") && Nowhere(text, "encoding")
    ensures Detect(settings, mark + (Utf8(text) + (['?' as int, '>' as int] + rest)), final)
         == if Len(text) + 2 > settings.maxToken then Rejected(LimitExceeded, None, None)
            else Chosen(Utf8Encoding, |mark|)
  {
    hide Declared, FindClose, OpensDeclaration, StartsWith, Nowhere;
    var close: seq<Byte> := ['?' as int, '>' as int] + rest;
    var content := Utf8(text) + close;
    OpensThere(text, close);
    CloseFound(text, rest);
    assert content[..Len(text)] == Utf8(text);
    UnnamedDeclared(settings, |mark|, text);
    FirstBytes(settings, mark, content);
    assert (mark + content)[|mark|..] == content;
  }

  lemma UnnamedDeclared(settings: Settings, skip: nat, text: string)
    requires Nowhere(text, "encoding")
    ensures Declared(settings, skip, Utf8(text)) == Chosen(Utf8Encoding, skip)
  {
    hide Find, Detection.Text, Nowhere, ValidEncodingName, SameName;
    TextBack(text);
    FindNowhere(text, "encoding");
  }

  /** A declaration that is not closed yet is waited for, within the limit of a token; at the end of the
      input it names nothing. */
  lemma UnclosedWaits(settings: Settings, mark: seq<Byte>, text: string, final: bool)
    requires settings.requested.None? && (mark == [] || mark == UTF8_BOM) && OpensText(text)
    requires Nowhere(text, "?>")
    ensures Detect(settings, mark + Utf8(text), final)
         == if Len(text) > settings.maxToken then Rejected(LimitExceeded, None, None)
            else if final then Chosen(Utf8Encoding, |mark|) else Undetermined
  {
    hide FindClose, OpensDeclaration, StartsWith, Nowhere;
    assert Utf8(text) + [] == Utf8(text);
    OpensThere(text, []);
    NotClosed(text);
    FirstBytes(settings, mark, Utf8(text));
    assert (mark + Utf8(text))[|mark|..] == Utf8(text);
  }

  lemma NotClosed(text: string)
    requires Nowhere(text, "?>")
    ensures FindClose(Utf8(text), 0) == None
  {
    forall i: nat ensures !IsClose(Utf8(text), i) {
      if i + 2 <= Len(text) { NoPair(text, i); }
    }
  }

  /** The usual declaration is one. */
  function Usual(name: string): Declaration { Declaration("<?xml version=\"1.0\" ", "", "", '"', name, "") }

  const OPENING: string := "<?xml version=\"1.0\" encoding=\""

  lemma UsualDeclares(name: string)
    requires IsEncodingName(name)
    ensures IsDeclaration(Usual(name)) && Usual(name).Text() == "<?xml version=\"1.0\" encoding=\"" + name + "\""
  {
    hide Occurs, IsEncodingName, Whitespace;
    var d := Usual(name);
    var text := OPENING + name + "\"";
    UsualText(name);
    PlainName(name);
    OpeningPlain();
    hide OPENING;
    forall i: nat | i < |text| ensures !Occurs(text, "?>", i) {
      PairOccurs(text, i);
      if |OPENING| <= i < |OPENING| + |name| { assert text[i] == name[i - |OPENING|]; }
      if i + 1 < |OPENING| { assert text[i] == OPENING[i] && text[i + 1] == OPENING[i + 1]; }
    }
    forall i: nat | i < |d.before| ensures !Occurs(text, "encoding", i) {
      assert text[i] == OPENING[i] && text[i + 1] == OPENING[i + 1];
      WordStarts(text, i);
    }
  }

  lemma UsualText(name: string)
    ensures Usual(name).Text() == OPENING + name + "\"" && OpensText(Usual(name).before)
    ensures |Usual(name).before| + 1 < |OPENING|
  {
    assert Usual(name).Prefix() == OPENING;
    assert Usual(name).before[..5] == "<?xml";
    assert OPENING + name + "\"" + "" == OPENING + name + "\"";
  }

  lemma OpeningPlain()
    ensures forall i: nat | i + 1 < |OPENING| :: !(OPENING[i] == '?' && OPENING[i + 1] == '>')
    ensures |OPENING| > 0 && OPENING[|OPENING| - 1] != '?'
    ensures forall i: nat | i < |Usual("").before| && i + 1 < |OPENING| :: !(OPENING[i] == 'e' && OPENING[i + 1] == 'n')
  {}

  lemma PlainName(name: string)
    requires IsEncodingName(name)
    ensures '"' !in name && forall i: nat | i < |name| :: name[i] != '?'
  {}

  lemma WordStarts(text: string, i: nat)
    ensures Occurs(text, "encoding", i) ==> i + 1 < |text| && text[i] == 'e' && text[i + 1] == 'n'
  {
    if i + 8 <= |text| { assert text[i..i + 8][0] == text[i] && text[i..i + 8][1] == text[i + 1]; }
  }

  // ------------------------------------------------------------- a protocol's name

  /** The name `UTF-16` is big endian until a signature says otherwise. */
  function RequestedAs(name: string): Option<Encoding> {
    if Lowered(name) == "utf-16" then Some(Utf16Be) else KnownAs(name)
  }

  /** What the first bytes of a document say about Unicode, and how many of them are a mark. */
  function Marked(bytes: seq<Byte>): (Option<Encoding>, nat) {
    if |bytes| >= 3 && bytes[0] == 0xEF && bytes[1] == 0xBB && bytes[2] == 0xBF then (Some(Utf8Encoding), 3)
    else if |bytes| >= 2 && bytes[0] == 0xFF && bytes[1] == 0xFE then (Some(Utf16Le), 2)
    else if |bytes| >= 2 && bytes[0] == 0xFE && bytes[1] == 0xFF then (Some(Utf16Be), 2)
    else if |bytes| >= 2 && bytes[0] == 0 then (Some(Utf16Be), 0)
    else if |bytes| >= 2 && bytes[1] == 0 then (Some(Utf16Le), 0)
    else (None, 0)
  }

  lemma MarkedExactly(bytes: seq<Byte>, requested: Option<Encoding>)
    ensures Signature(bytes, false, requested) == Marked(bytes)
  {
    if |bytes| >= 3 { assert bytes[..3] == [bytes[0], bytes[1], bytes[2]]; }
    if |bytes| >= 2 { assert bytes[..2] == [bytes[0], bytes[1]]; }
  }

  /** A document whose encoding a protocol names is read in it, unless a mark or zero bytes say otherwise;
      an unknown name asks for a map. */
  lemma ProtocolExactly(settings: Settings, name: string, bytes: seq<Byte>, final: bool)
    requires settings.requested == Some(name) && !settings.externalContent && (final || |bytes| >= 4)
    ensures Detect(settings, bytes, final) ==
      match RequestedAs(name)
      case None => Rejected(UnknownEncoding, Some(name), None)
      case Some(encoding) =>
        var (found, mark) := Marked(bytes);
        Chosen(if found.Some? then found.value else encoding, mark)
  {
    hide Signature, SameName;
    KnownExactly(name);
    MarkedExactly(bytes, RequestedAs(name));
  }

  /** Content that is named ISO-8859-1 is taken as it is at once: bytes that would be a mark are data. */
  lemma LatinContent(settings: Settings, name: string, bytes: seq<Byte>, final: bool)
    requires settings.requested == Some(name) && Lowered(name) == "iso-8859-1" && settings.externalContent
    requires bytes != [] && bytes[0] != 0 && bytes[0] != '<' as int
    ensures Detect(settings, bytes, final) == Chosen(Latin1, 0)
  {
    hide SameName;
    KnownExactly(name);
  }
}
