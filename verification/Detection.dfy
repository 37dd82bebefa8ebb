/** Choosing the input encoding from signatures and the XML declaration (encoding.rs). */
module Detection {
  import opened Unicode
  import opened Wrappers
  import opened Errors
  import opened Names
  import opened Positions
  import opened Sources
  import opened Codecs

  /** What the caller fixes for the whole input. `malformed` stands for the declaration grammar. */
  datatype Settings = Settings(
    requested: Option<string>, allowBomMismatch: bool, maxToken: nat, externalContent: bool,
    malformed: string -> bool)

  datatype Choice =
    | Undetermined
    | Chosen(encoding: Encoding, skip: nat)
    | Rejected(kind: ErrorKind, name: Option<string>, position: Option<Position>)

  // ------------------------------------------------------------------- names

  function Lower(c: char): char { if 'A' <= c <= 'Z' then (c as int + 32) as char else c }

  /** `eq_ignore_ascii_case`. */
  predicate SameName(a: string, b: string) {
    |a| == |b| && forall i: nat | i < |a| :: Lower(a[i]) == Lower(b[i])
  }

  predicate BuiltIn(encoding: Encoding) { encoding != SingleByte && encoding != MultiByte }

  function Named(name: string): (encoding: Option<Encoding>)
    ensures encoding.Some? ==> BuiltIn(encoding.value)
  {
    if SameName(name, "UTF-8") then Some(Utf8Encoding)
    else if SameName(name, "UTF-16LE") then Some(Utf16Le)
    else if SameName(name, "UTF-16BE") then Some(Utf16Be)
    else if SameName(name, "ISO-8859-1") then Some(Latin1)
    else if SameName(name, "US-ASCII") || SameName(name, "ASCII") then Some(Ascii)
    else None
  }

  /** Production [81] of XML 1.0. */
  predicate ValidEncodingName(name: string) {
    && name != "" && ('a' <= name[0] <= 'z' || 'A' <= name[0] <= 'Z')
    && forall i: nat | i < |name| ::
         'a' <= name[i] <= 'z' || 'A' <= name[i] <= 'Z' || '0' <= name[i] <= '9'
         || name[i] == '.' || name[i] == '_' || name[i] == '-'
  }

  /** ASCII that custom encodings must keep. */
  predicate RequiredAscii(v: int) {
    || v == 9 || v == 10 || v == 13
    || (32 <= v < 127 && v != 36 && v != 64 && v != 92 && v != 94 && v != 96 && v != 123 && v != 125 && v != 126)
  }

  // -------------------------------------------------------------- signatures

  predicate StartsWith(bytes: seq<Byte>, prefix: seq<Byte>) {
    |prefix| <= |bytes| && bytes[..|prefix|] == prefix
  }

  const UTF8_BOM: seq<Byte> := [0xEF, 0xBB, 0xBF]
  const UTF16LE_BOM: seq<Byte> := [0xFF, 0xFE]
  const UTF16BE_BOM: seq<Byte> := [0xFE, 0xFF]
  const XML_DECL: seq<Byte> := [0x3C, 0x3F, 0x78, 0x6D, 0x6C]

  /** The encoding a leading signature selects, and the length of a byte order mark. */
  function Signature(bytes: seq<Byte>, external: bool, requested: Option<Encoding>): (found: (Option<Encoding>, nat))
    ensures found.1 <= |bytes| && (found.0.Some? ==> BuiltIn(found.0.value))
  {
    var latin1 := external && requested == Some(Latin1);
    var utf16 := external && (requested == Some(Utf16Le) || requested == Some(Utf16Be));
    if StartsWith(bytes, UTF8_BOM) && !latin1 && !utf16 then (Some(Utf8Encoding), 3)
    else if StartsWith(bytes, UTF16LE_BOM) && !latin1 then (Some(Utf16Le), 2)
    else if StartsWith(bytes, UTF16BE_BOM) && !latin1 then (Some(Utf16Be), 2)
    else if |bytes| >= 2 && bytes[0] == 0 && !(external && requested == Some(Utf16Le)) then (Some(Utf16Be), 0)
    else if |bytes| >= 2 && bytes[1] == 0 && (!external || (bytes[0] == LT && requested != Some(Utf16Be))) then
      (Some(Utf16Le), 0)
    else (None, 0)
  }

  /** Enough input to trust a signature, or its absence. */
  predicate SignatureSettled(bytes: seq<Byte>) {
    |bytes| >= 4 || (|bytes| >= 2 && 0 < bytes[0] < 0x80 && 0 < bytes[1] < 0x80)
  }

  lemma SignatureStable(a: seq<Byte>, more: seq<Byte>, external: bool, requested: Option<Encoding>)
    requires SignatureSettled(a)
    ensures SignatureSettled(a + more)
    ensures Signature(a + more, external, requested) == Signature(a, external, requested)
    ensures Signature(a, external, requested).1 <= |a|
  {
    var b := a + more;
    assert forall i: nat | i < |a| :: b[i] == a[i];
    Prefixes(a, more, UTF8_BOM);
    Prefixes(a, more, UTF16LE_BOM);
    Prefixes(a, more, UTF16BE_BOM);
  }

  /** A settled prefix decides every signature. */
  lemma Prefixes(a: seq<Byte>, more: seq<Byte>, mark: seq<Byte>)
    requires SignatureSettled(a) && 0 < |mark| <= 3 && mark[0] >= 0x80
    ensures StartsWith(a + more, mark) == StartsWith(a, mark)
  {
    assert (a + more)[0] == a[0];
    if |mark| <= |a| {
      assert (a + more)[..|mark|] == a[..|mark|];
    } else {
      if |mark| <= |a + more| { assert (a + more)[..|mark|][0] == a[0] != mark[0]; }
    }
  }

  // ------------------------------------------------------- the XML declaration

  /** The first `?>` at or after an offset. */
  function FindClose(content: seq<Byte>, from: nat): (at: Option<nat>)
    ensures at.Some? ==> from <= at.value && at.value + 2 <= |content| && IsClose(content, at.value)
    ensures at.Some? ==> forall i: nat | from <= i < at.value :: !IsClose(content, i)
    ensures at.None? ==> forall i: nat | from <= i :: !IsClose(content, i)
    decreases |content| - from
  {
    if from + 2 > |content| then None
    else if IsClose(content, from) then Some(from)
    else FindClose(content, from + 1)
  }

  predicate IsClose(content: seq<Byte>, i: nat) {
    i + 2 <= |content| && content[i] == 0x3F && content[i + 1] == 0x3E
  }

  /** `str::from_utf8` on complete text. */
  function Text(bytes: seq<Byte>): Option<string> {
    var decoded := Decode(Codec(Utf8Encoding, [], _ => 0, FifthEdition), bytes);
    if decoded.failed || decoded.rest != [] then None else Some(Characters(decoded.units))
  }

  /** `str::find` of a substring or character. */
  function Find(s: string, pattern: string): (at: Option<nat>)
    ensures at.Some? ==> at.value + |pattern| <= |s| && s[at.value..at.value + |pattern|] == pattern
  {
    if |s| < |pattern| then None
    else if s[..|pattern|] == pattern then Some(0)
    else
      match Find(s[1..], pattern)
      case None => None
      case Some(i) => assert s[1..][i..i + |pattern|] == s[i + 1..i + 1 + |pattern|]; Some(i + 1)
  }

  /** The quoted encoding name of a declaration and the text before it. */
  function DeclaredName(declaration: string): Option<(string, string)> {
    match Find(declaration, "encoding")
    case None => None
    case Some(start) =>
      var rest := TrimStart(declaration[start + 8..]);
      if rest == "" || rest[0] != '=' then None
      else
        var value := TrimStart(rest[1..]);
        if value == "" || !(value[0] == '\'' || value[0] == '"') then None
        else
          match Find(value[1..], [value[0]])
          case None => None
          case Some(end) =>
            var before := |declaration| - |value| + 1;
            Some((value[1..end + 1], declaration[..before]))
  }

  /** Where a rejected name stands. */
  function NamePosition(skip: nat, before: string): Position {
    var at := Advance(Coordinates(1, if skip != 0 then 1 else 0, false), before);
    Position(skip + Len(before), at.line, at.column, 0)
  }

  /** What a complete declaration decides, for input sniffed as UTF-8. */
  function Declared(settings: Settings, skip: nat, bytes: seq<Byte>): (choice: Choice)
    ensures choice.Rejected? && choice.kind == UnknownEncoding ==> choice.name.Some?
    ensures choice != Undetermined && (choice.Chosen? ==> BuiltIn(choice.encoding) && choice.skip == skip)
  {
    var utf8 := Chosen(Utf8Encoding, skip);
    match Text(bytes)
    case None => utf8
    case Some(declaration) =>
      match DeclaredName(declaration)
      case None => utf8
      case Some((name, before)) =>
        var encoding := Named(name);
        var wide := SameName(name, "UTF-16") || encoding == Some(Utf16Le) || encoding == Some(Utf16Be);
        if !ValidEncodingName(name) then utf8
        else if encoding.None? && !wide && (forall i: nat | i < |bytes| :: RequiredAscii(bytes[i]))
          && |declaration| >= 5 && settings.malformed(declaration[5..]) then utf8
        else
          var mismatch := wide || (skip == 3 && !settings.allowBomMismatch && encoding != Some(Utf8Encoding));
          var position := Some(NamePosition(skip, before));
          if mismatch then Rejected(IncorrectEncoding, None, position)
          else if encoding.None? then Rejected(UnknownEncoding, Some(name), position)
          else Chosen(encoding.value, skip)
  }

  /** Whether the content opens with an XML declaration. */
  predicate OpensDeclaration(content: seq<Byte>) {
    StartsWith(content, XML_DECL) && |content| > 5
    && (content[5] == 0x20 || content[5] == 0x09 || content[5] == 0x0A || content[5] == 0x0C || content[5] == 0x0D)
  }

  /** The part of the decision that reads a declaration. */
  function FromContent(settings: Settings, skip: nat, content: seq<Byte>, final: bool): (choice: Choice)
    ensures choice.Rejected? && choice.kind == UnknownEncoding ==> choice.name.Some?
    ensures choice == Undetermined ==> !final
  {
    if StartsWith(XML_DECL, content) && !final then Undetermined
    else if !OpensDeclaration(content) then Chosen(Utf8Encoding, skip)
    else
      match FindClose(content, 0)
      case Some(end) =>
        if end + 2 > settings.maxToken then Rejected(LimitExceeded, None, None)
        else Declared(settings, skip, content[..end])
      case None =>
        if |content| > settings.maxToken then Rejected(LimitExceeded, None, None)
        else if !final then Undetermined
        else Chosen(Utf8Encoding, skip)
  }

  function Requested(settings: Settings): Option<Option<Encoding>> {
    match settings.requested
    case None => None
    case Some(name) => Some(if SameName(name, "UTF-16") then Some(Utf16Be) else Named(name))
  }

  /** Latin-1 content commits at once unless a UTF-16 signature is still possible. */
  predicate CommitsLatin1(settings: Settings, bytes: seq<Byte>) {
    && settings.externalContent && settings.requested.Some? && Named(settings.requested.value) == Some(Latin1)
    && bytes != [] && bytes[0] != 0 && bytes[0] != LT
  }

  /** The decision on all the input so far, without any memory of earlier attempts. */
  function Detect(settings: Settings, bytes: seq<Byte>, final: bool): (choice: Choice)
    ensures choice.Rejected? && choice.kind == UnknownEncoding ==> choice.name.Some?
    ensures choice == Undetermined ==> !final
    ensures choice != Undetermined ==> CommitsLatin1(settings, bytes) || final || SignatureSettled(bytes)
  {
    if CommitsLatin1(settings, bytes) then Chosen(Latin1, 0)
    else if !SignatureSettled(bytes) && !final then Undetermined
    else
      match Requested(settings)
      case Some(None) => Rejected(UnknownEncoding, settings.requested, None)
      case Some(Some(requested)) =>
        var (detected, skip) := Signature(bytes, settings.externalContent, Some(requested));
        Chosen(if detected.Some? then detected.value else requested, skip)
      case None =>
        var (detected, skip) := Signature(bytes, settings.externalContent, None);
        if detected.Some? && detected.value != Utf8Encoding then Chosen(detected.value, skip)
        else FromContent(settings, skip, bytes[skip..], final)
  }

  /** A choice made on a prefix is the choice for the whole input, however the rest arrives. */
  lemma DetectStable(settings: Settings, a: seq<Byte>, more: seq<Byte>, final: bool)
    requires Detect(settings, a, false) != Undetermined
    ensures Detect(settings, a + more, final) == Detect(settings, a, false)
  {
    hide Declared, Signature, Named;
    var b := a + more;
    assert a != [] ==> b[0] == a[0];
    if !CommitsLatin1(settings, a) {
      assert SignatureSettled(a);
      var requested := if settings.requested.Some? then Requested(settings).value else None;
      SignatureStable(a, more, settings.externalContent, requested);
      if settings.requested.None? {
        var skip := Signature(a, settings.externalContent, None).1;
        assert b[skip..] == a[skip..] + more;
        if FromContent(settings, skip, a[skip..], false) != Undetermined {
          ContentStable(settings, skip, a[skip..], more, final);
        }
      }
    }
  }

  lemma ContentStable(settings: Settings, skip: nat, a: seq<Byte>, more: seq<Byte>, final: bool)
    requires FromContent(settings, skip, a, false) != Undetermined
    ensures FromContent(settings, skip, a + more, final) == FromContent(settings, skip, a, false)
  {
    hide Declared;
    var b := a + more;
    assert forall i: nat | i < |a| :: b[i] == a[i];
    assert !StartsWith(XML_DECL, a);
    if |a| <= 5 {
      var i := FirstDifference(a, XML_DECL);
      if |b| >= 5 { assert b[..5][i] == a[i] != XML_DECL[i]; }
      if |b| <= 5 { assert XML_DECL[..|b|][i] == XML_DECL[i] != b[i]; }
    } else {
      assert b[..5] == a[..5];
      if OpensDeclaration(a) {
        var whole, part := FindClose(b, 0), FindClose(a, 0);
        assert forall j: nat | j + 2 <= |a| :: IsClose(b, j) == IsClose(a, j);
        if part.Some? {
          assert IsClose(b, part.value);
          assert b[..part.value] == a[..part.value];
        }
      }
    }
  }

  lemma FirstDifference(a: seq<Byte>, pattern: seq<Byte>) returns (i: nat)
    requires |a| <= |pattern| && !StartsWith(pattern, a)
    ensures i < |a| && a[i] != pattern[i]
  {
    assert pattern[..|a|] != a;
    i :| i < |a| && a[i] != pattern[i];
  }

  // ------------------------------------------------------------ resumable form

  /** `Detection`: remembers how much of a declaration was already searched. */
  class Detector {
    const settings: Settings
    var declarationChecked: nat
    var unknownName: Option<string>
    var errorPosition: Option<Position>

    constructor (settings: Settings)
      ensures this.settings == settings && unknownName == None && declarationChecked == 0
    {
      this.settings := settings;
      declarationChecked, unknownName, errorPosition := 0, None, None;
    }

    /** Nothing before the saved progress closes the declaration. */
    ghost predicate Remembers(bytes: seq<Byte>)
      reads this
    {
      declarationChecked > 0 ==>
        var skip := Signature(bytes, settings.externalContent, None).1;
        && settings.requested.None? && SignatureSettled(bytes) && skip <= |bytes|
        && declarationChecked < |bytes| - skip
        && forall i: nat | i < declarationChecked :: !IsClose(bytes[skip..], i)
    }

    /** Progress stays true when more bytes arrive. */
    lemma Keeps(bytes: seq<Byte>, more: seq<Byte>)
      requires Remembers(bytes)
      ensures Remembers(bytes + more)
    {
      hide Signature;
      if declarationChecked > 0 {
        SignatureStable(bytes, more, settings.externalContent, None);
        var skip := Signature(bytes, settings.externalContent, None).1;
        assert (bytes + more)[skip..] == bytes[skip..] + more;
        assert forall i: nat | i < declarationChecked ::
          IsClose((bytes + more)[skip..], i) == IsClose(bytes[skip..], i);
      }
    }

    /** `detect`: the memoryless decision, searching only the unread part of a declaration. */
    method DetectNow(bytes: seq<Byte>, final: bool) returns (choice: Choice)
      requires Remembers(bytes)
      modifies this
      ensures choice == Detect(settings, bytes, final)
      ensures choice == Undetermined ==> Remembers(bytes)
      ensures choice.Rejected? && choice.name.Some? ==> unknownName == choice.name
      ensures !choice.Rejected? || choice.name.None? ==> unknownName == old(unknownName)
      ensures choice.Rejected? && choice.position.Some? ==> errorPosition == choice.position
    {
      hide Declared, Named;
      if CommitsLatin1(settings, bytes) {
        return Chosen(Latin1, 0);
      }
      if !SignatureSettled(bytes) && !final {
        return Undetermined;
      }
      var requested := Requested(settings);
      if requested == Some(None) {
        unknownName := settings.requested;
        return Rejected(UnknownEncoding, settings.requested, None);
      }
      var preferred := if requested.Some? then requested.value else None;
      var (detected, skip) := Signature(bytes, settings.externalContent, preferred);
      if preferred.Some? {
        return Chosen(if detected.Some? then detected.value else preferred.value, skip);
      }
      if detected.Some? && detected.value != Utf8Encoding {
        return Chosen(detected.value, skip);
      }
      choice := SearchDeclaration(bytes, skip, final);
    }

    method SearchDeclaration(bytes: seq<Byte>, skip: nat, final: bool) returns (choice: Choice)
      requires Remembers(bytes) && settings.requested.None?
      requires skip == Signature(bytes, settings.externalContent, None).1 && skip <= |bytes|
      requires final || SignatureSettled(bytes)
      modifies this
      ensures choice == FromContent(settings, skip, bytes[skip..], final)
      ensures choice == Undetermined ==> Remembers(bytes)
      ensures choice.Rejected? && choice.name.Some? ==> unknownName == choice.name
      ensures !choice.Rejected? || choice.name.None? ==> unknownName == old(unknownName)
      ensures choice.Rejected? && choice.position.Some? ==> errorPosition == choice.position
    {
      hide Declared, Signature;
      var content := bytes[skip..];
      if StartsWith(XML_DECL, content) && !final {
        return Undetermined;
      }
      if !OpensDeclaration(content) {
        return Chosen(Utf8Encoding, skip);
      }
      var start := if declarationChecked < |content| then declarationChecked else |content|;
      var end := FindClose(content, start);
      FindCloseLater(content, start);
      declarationChecked := |content| - 1;
      if (if end.Some? then end.value + 2 else |content|) > settings.maxToken {
        return Rejected(LimitExceeded, None, None);
      }
      if end.None? {
        return if final then Chosen(Utf8Encoding, skip) else Undetermined;
      }
      choice := Declared(settings, skip, content[..end.value]);
      if choice.Rejected? {
        errorPosition := choice.position;
        if choice.name.Some? {
          unknownName := choice.name;
        }
      }
    }
  }

  lemma FindCloseLater(content: seq<Byte>, start: nat)
    requires start <= |content| && forall i: nat | i < start :: !IsClose(content, i)
    ensures FindClose(content, start) == FindClose(content, 0)
  {
    var a, b := FindClose(content, start), FindClose(content, 0);
    if a.Some? { assert IsClose(content, a.value); }
    if b.Some? { assert IsClose(content, b.value); }
  }
}
