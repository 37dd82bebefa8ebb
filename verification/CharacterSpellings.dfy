/** How characters are spelled as references (sections 4.1 and 4.6 of XML 1.0), and that exactly these
    spellings are decoded. */
module CharacterSpellings {
  import opened Unicode
  import opened Wrappers
  import opened Errors
  import opened Names
  import opened References

  // ----------------------------------------------------------------- predefined

  /** The spelling of the characters that have a predefined one. */
  function Escape(c: char): Option<string> {
    match c
    case '<' => Some("&lt;")
    case '>' => Some("&gt;")
    case '&' => Some("&amp;")
    case '\'' => Some("&apos;")
    case '"' => Some("&quot;")
    case _ => None
  }

  /** What is not a number decodes exactly as the escape of a character. */
  lemma EscapeExactly(name: string, c: char)
    requires name == "" || name[0] != '#'
    ensures CharacterReference(name) == Success(Some(c)) <==> Escape(c) == Some("&" + name + ";")
    ensures CharacterReference(name) == Success(None) <==> forall d: char :: Escape(d) != Some("&" + name + ";")
  {
    assert ("&" + name + ";")[1..|name| + 1] == name;
    Unescaped('<');
    Unescaped('>');
    Unescaped('&');
    Unescaped('\'');
    Unescaped('"');
    if Predefined(name).Some? { Escaped(name); }
  }

  lemma Unescaped(c: char)
    requires Escape(c).Some?
    ensures |Escape(c).value| >= 2 && Predefined(Escape(c).value[1..|Escape(c).value| - 1]) == Some(c)
  {
    var spelled := Escape(c).value;
    var name := spelled[1..|spelled| - 1];
    if c == '<' { assert name == "lt"; }
    else if c == '>' { assert name == "gt"; }
    else if c == '&' { assert name == "amp"; }
    else if c == '\'' { assert name == "apos"; }
    else { assert name == "quot"; }
  }

  lemma Escaped(name: string)
    requires Predefined(name).Some?
    ensures Escape(Predefined(name).value) == Some("&" + name + ";")
  {
    var spelled := "&" + name + ";";
    if name == "lt" { assert spelled == "&lt;"; }
    else if name == "gt" { assert spelled == "&gt;"; }
    else if name == "amp" { assert spelled == "&amp;"; }
    else if name == "apos" { assert spelled == "&apos;"; }
    else { assert spelled == "&quot;"; }
  }

  // -------------------------------------------------------------------- numbers

  /** The digits of a number; zero has none. */
  function Numeral(v: nat, radix: nat): string
    requires 2 <= radix <= 16
  {
    if v == 0 then "" else Numeral(v / radix, radix) + [DigitOf(v % radix)]
  }

  function DigitOf(d: nat): char
    requires d < 16
  {
    "0123456789abcdef"[d]
  }

  function Zeros(n: nat): string { seq(n, _ => '0') }

  function LowerCase(c: char): char {
    if 'A' <= c <= 'Z' then "abcdefghijklmnopqrstuvwxyz"[c as int - 'A' as int] else c
  }

  function Lowered(s: string): (lower: string)
    ensures |lower| == |s|
  {
    seq(|s|, i requires 0 <= i < |s| => LowerCase(s[i]))
  }

  /** A number written in some radix: leading zeros are allowed, letters in either case. */
  ghost predicate Writes(digits: string, radix: nat, v: nat)
    requires 2 <= radix <= 16
  {
    exists zeros: nat :: Lowered(digits) == Zeros(zeros) + Numeral(v, radix)
  }

  lemma DigitBack(d: nat, radix: nat)
    requires (radix == 10 || radix == 16) && d < radix
    ensures DigitValue(DigitOf(d)) == d && IsDigit(DigitOf(d), radix)
  {}

  lemma DigitForth(c: char, radix: nat)
    requires (radix == 10 || radix == 16) && IsDigit(c, radix)
    ensures DigitValue(c) < radix && LowerCase(c) == DigitOf(DigitValue(c))
  {}

  lemma SameDigit(c: char, radix: nat)
    requires radix == 10 || radix == 16
    ensures IsDigit(LowerCase(c), radix) ==> IsDigit(c, radix) && DigitValue(LowerCase(c)) == DigitValue(c)
  {}

  lemma {:induction false} NumeralNumber(zeros: nat, v: nat, radix: nat)
    requires radix == 10 || radix == 16
    ensures
      var digits := Zeros(zeros) + Numeral(v, radix);
      Number(digits, radix) == v && forall i: nat | i < |digits| :: IsDigit(digits[i], radix)
    decreases v, zeros
  {
    hide Number, IsDigit, DigitValue;
    var digits := Zeros(zeros) + Numeral(v, radix);
    if v > 0 {
      NumeralNumber(zeros, v / radix, radix);
      NumeralLast(v, radix);
      hide Numeral, Zeros;
      var before := Zeros(zeros) + Numeral(v / radix, radix);
      Associative(Zeros(zeros), Numeral(v / radix, radix), [DigitOf(v % radix)]);
      DigitBack(v % radix, radix);
      AppendDigit(before, DigitOf(v % radix), radix);
    } else if zeros > 0 {
      NumeralNumber(zeros - 1, 0, radix);
      var before := Zeros(zeros - 1) + Numeral(0, radix);
      assert digits == before + ['0'] && '0' == DigitOf(0);
      DigitBack(0, radix);
      AppendDigit(before, '0', radix);
    } else {
      NoDigits(radix);
      assert digits == "";
    }
  }

  lemma NumeralLast(v: nat, radix: nat)
    requires (radix == 10 || radix == 16) && v > 0
    ensures Numeral(v, radix) == Numeral(v / radix, radix) + [DigitOf(v % radix)]
    ensures (v / radix) * radix + v % radix == v
  {
    if radix == 10 { assert v / 10 * 10 + v % 10 == v; } else { assert v / 16 * 16 + v % 16 == v; }
  }

  lemma {:induction false} NumberLowered(digits: string, radix: nat)
    requires (radix == 10 || radix == 16) && forall i: nat | i < |digits| :: IsDigit(Lowered(digits)[i], radix)
    ensures Number(digits, radix) == Number(Lowered(digits), radix)
    ensures forall i: nat | i < |digits| :: IsDigit(digits[i], radix)
  {
    hide Number, IsDigit, DigitValue, LowerCase;
    if digits != "" {
      var n := |digits| - 1;
      assert Lowered(digits) == Lowered(digits[..n]) + [LowerCase(digits[n])];
      assert digits == digits[..n] + [digits[n]] && Lowered(digits)[n] == LowerCase(digits[n]);
      forall i: nat | i < n ensures IsDigit(Lowered(digits[..n])[i], radix) {
        assert Lowered(digits[..n])[i] == Lowered(digits)[i];
      }
      NumberLowered(digits[..n], radix);
      SameDigit(digits[n], radix);
      AppendDigit(digits[..n], digits[n], radix);
      AppendDigit(Lowered(digits[..n]), LowerCase(digits[n]), radix);
    } else {
      assert Lowered(digits) == digits;
    }
  }

  lemma {:induction false} NumberWrites(digits: string, radix: nat) returns (zeros: nat)
    requires (radix == 10 || radix == 16) && forall i: nat | i < |digits| :: IsDigit(digits[i], radix)
    ensures Lowered(digits) == Zeros(zeros) + Numeral(Number(digits, radix), radix)
  {
    hide Number, IsDigit, DigitValue, LowerCase, Numeral;
    if digits == "" {
      NoDigits(radix);
      NoNumeral(radix);
      zeros := 0;
    } else {
      var n := |digits| - 1;
      zeros := NumberWrites(digits[..n], radix);
      var before, d := Number(digits[..n], radix), DigitValue(digits[n]);
      DigitForth(digits[n], radix);
      assert Lowered(digits) == Lowered(digits[..n]) + [LowerCase(digits[n])] && digits == digits[..n] + [digits[n]];
      AppendDigit(digits[..n], digits[n], radix);
      Appended(before, d, radix);
      NoNumeral(radix);
      if before == 0 && d == 0 {
        assert Zeros(zeros) + "" == Zeros(zeros) && Zeros(zeros + 1) == Zeros(zeros) + ['0'];
        assert Zeros(zeros + 1) + "" == Zeros(zeros + 1) && DigitOf(0) == '0';
        zeros := zeros + 1;
      } else {
        Associative(Zeros(zeros), Numeral(before, radix), [DigitOf(d)]);
      }
    }
  }

  lemma NoNumeral(radix: nat)
    requires 2 <= radix <= 16
    ensures Numeral(0, radix) == ""
  {}

  lemma Appended(before: nat, d: nat, radix: nat)
    requires 2 <= radix <= 16 && d < radix
    ensures before * radix + d == 0 <==> before == 0 && d == 0
    ensures before * radix + d > 0 ==> Numeral(before * radix + d, radix) == Numeral(before, radix) + [DigitOf(d)]
  {
    Split(before, d, radix);
  }

  lemma Split(before: nat, d: nat, radix: nat)
    requires 2 <= radix <= 16 && d < radix
    ensures (before * radix + d) / radix == before && (before * radix + d) % radix == d
    ensures before > 0 ==> before * radix > 0
  {}

  /** Digits are a number's exactly when their value is that number. */
  lemma WritesExactly(digits: string, radix: nat, v: nat)
    requires radix == 10 || radix == 16
    ensures Writes(digits, radix, v)
       <==> Number(digits, radix) == v && forall i: nat | i < |digits| :: IsDigit(digits[i], radix)
  {
    hide Number, Numeral, IsDigit, Lowered, Zeros;
    if Writes(digits, radix, v) {
      var zeros: nat :| Lowered(digits) == Zeros(zeros) + Numeral(v, radix);
      NumeralNumber(zeros, v, radix);
      NumberLowered(digits, radix);
    } else if forall i: nat | i < |digits| :: IsDigit(digits[i], radix) {
      var zeros := NumberWrites(digits, radix);
    }
  }

  /** `#` and a decimal, or `#x` and a hexadecimal number. */
  ghost predicate IsNumber(s: string, v: nat) {
    exists digits ::
      digits != "" && ((s == "#" + digits && Writes(digits, 10, v)) || (s == "#x" + digits && Writes(digits, 16, v)))
  }

  predicate IsCharacter(c: char, v: nat) { c as int == v && IsXmlChar(c) }

  /** Whatever starts with `#`: a character's number, a number without one, or no number. */
  lemma NumericExactly(s: string)
    requires s != "" && s[0] == '#'
    ensures
      match CharacterReference(s)
      case Success(Some(c)) => exists v: nat :: IsNumber(s, v) && IsCharacter(c, v)
      case Success(None) => false
      case Failure((kind, _)) =>
        if kind == BadCharacterReference then exists v: nat :: IsNumber(s, v) && forall c: char :: !IsCharacter(c, v)
        else kind == InvalidToken && forall v: nat :: !IsNumber(s, v)
    ensures forall v: nat | IsNumber(s, v) :: forall w: nat | IsNumber(s, w) :: v == w
  {
    hide Number, Writes, WrongDigit;
    var digits, radix := Digits(s), Radix(s);
    assert s == if radix == 16 then "#x" + digits else "#" + digits;
    assert Predefined(s).None?;
    forall v: nat ensures IsNumber(s, v) <==> digits != "" && Writes(digits, radix, v) { NumberForm(s, v); }
    var n := Number(digits, radix);
    WritesExactly(digits, radix, n);
    forall v: nat | Writes(digits, radix, v) ensures v == n { WritesExactly(digits, radix, v); }
    CharacterNumbers(n);
  }

  lemma NumberForm(s: string, v: nat)
    requires s != "" && s[0] == '#'
    ensures IsNumber(s, v) <==> Digits(s) != "" && Writes(Digits(s), Radix(s), v)
  {
    hide Writes;
    var digits, radix := Digits(s), Radix(s);
    assert s == if radix == 16 then "#x" + digits else "#" + digits;
    if IsNumber(s, v) {
      var d :| d != "" && ((s == "#" + d && Writes(d, 10, v)) || (s == "#x" + d && Writes(d, 16, v)));
      assert ("#" + d)[1..] == d && ("#x" + d)[2..] == d && ("#x" + d)[1] == 'x';
      if s == "#" + d && Writes(d, 10, v) {
        WritesExactly(d, 10, v);
        assert IsDigit(d[0], 10) && s[1] == d[0];
      }
    }
  }

  lemma CharacterNumbers(v: nat)
    ensures
      match Scalar(v)
      case Some(c) => IsCharacter(c, v) && forall d: char | IsCharacter(d, v) :: d == c
      case None => forall c: char :: !IsCharacter(c, v)
  {}

  /** Both numbers of every character XML allows decode to it. */
  lemma EveryCharacter(c: char)
    requires IsXmlChar(c)
    ensures CharacterReference("#" + Numeral(c as int, 10)) == Success(Some(c))
    ensures CharacterReference("#x" + Numeral(c as int, 16)) == Success(Some(c))
  {
    hide CharacterReference, Numeral;
    NumbersDecode(Numeral(c as int, 10), 10, c);
    NumbersDecode(Numeral(c as int, 16), 16, c);
  }

  lemma NumbersDecode(digits: string, radix: nat, c: char)
    requires (radix == 10 || radix == 16) && IsXmlChar(c) && digits == Numeral(c as int, radix)
    ensures CharacterReference((if radix == 10 then "#" else "#x") + digits) == Success(Some(c))
  {
    hide CharacterReference, Numeral, Number, Lowered, IsDigit;
    var s := (if radix == 10 then "#" else "#x") + digits;
    NumeralNumber(0, c as int, radix);
    NumeralLast(c as int, radix);
    assert Zeros(0) + digits == digits && digits != "";
    WritesExactly(digits, radix, c as int);
    assert s[0] == '#' && IsNumber(s, c as int) && IsCharacter(c, c as int);
    NumericExactly(s);
  }

  /** What is no number is wrong at the first character behind `#` or `#x` that is no digit, counted from the
      ampersand. */
  lemma WrongExactly(s: string)
    requires s != "" && s[0] == '#' && CharacterReference(s).Failure? && CharacterReference(s).error.0 == InvalidToken
    ensures
      var start, at := if |s| >= 2 && s[1] == 'x' then 2 else 1, CharacterReference(s).error.1;
      && 1 + start <= at <= 1 + |s|
      && (forall i: nat | start <= i < at - 1 :: IsDigit(s[i], if start == 2 then 16 else 10))
      && (at <= |s| ==> !IsDigit(s[at - 1], if start == 2 then 16 else 10))
      && (at == 1 + |s| ==> |s| == start)
  {
    hide Number, IsDigit;
    FirstWrong(Digits(s), Radix(s));
  }

  lemma {:induction false} FirstWrong(digits: string, radix: nat)
    ensures
      match WrongDigit(digits, radix)
      case None => forall i: nat | i < |digits| :: IsDigit(digits[i], radix)
      case Some(at) =>
        && at < |digits| && !IsDigit(digits[at], radix)
        && forall i: nat | i < at :: IsDigit(digits[i], radix)
  {
    hide IsDigit;
    if digits != "" && IsDigit(digits[0], radix) { FirstWrong(digits[1..], radix); }
  }
}
