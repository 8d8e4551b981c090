/**
 The simulator's G-code reader. Each text line is stripped and upper-cased; blank lines and
 `;` comments are skipped; a line starting with `M3` or `M5` is a pen command; a line
 starting with `G` is searched for `G0`..`G3` followed by the optional fields X, Y, I, J, F
 in that order; anything else is dropped. A field whose number does not parse stops the
 whole load with an error, as Python's `float` raising `ValueError` would.
 */
module GcodeParser {
  import opened Wrappers

  // ---------------------------------------------------------------------------
  // Characters and normalisation
  // ---------------------------------------------------------------------------

  /** White space as Python's `str.isspace` and the regular-expression class `\s` see it. */
  predicate IsSpace(c: char)
  {
    c == ' ' || '\t' <= c <= '\r' || '\U{1C}' <= c <= '\U{1F}' || c == '\U{85}' || c == '\U{A0}'
    || c == '\U{1680}' || '\U{2000}' <= c <= '\U{200A}' || c == '\U{2028}' || c == '\U{2029}'
    || c == '\U{202F}' || c == '\U{205F}' || c == '\U{3000}'
  }

  /** Index of the first character at or after `i` that is not white space. */
  function SkipSpaces(s: string, i: nat): (j: nat)
    requires i <= |s|
    ensures i <= j <= |s|
    ensures forall k :: i <= k < j ==> IsSpace(s[k])
    ensures j == |s| || !IsSpace(s[j])
    decreases |s| - i
  {
    if i == |s| || !IsSpace(s[i]) then i else SkipSpaces(s, i + 1)
  }

  /** One past the last character of `s` that is not white space. */
  function TrimmedEnd(s: string, j: nat): (e: nat)
    requires j <= |s|
    ensures e <= j
    ensures forall k :: e <= k < j ==> IsSpace(s[k])
    ensures e == 0 || !IsSpace(s[e - 1])
    decreases j
  {
    if j == 0 || !IsSpace(s[j - 1]) then j else TrimmedEnd(s, j - 1)
  }

  /** `str.strip()`: the line without leading and trailing white space. */
  function Strip(s: string): string
  {
    var a := SkipSpaces(s, 0);
    var b := TrimmedEnd(s, |s|);
    if b <= a then [] else s[a..b]
  }

  function UpperChar(c: char): char
  {
    if 'a' <= c <= 'z' then (c as int - 32) as char else c
  }

  /** `str.upper()` on ASCII letters. */
  function Upper(s: string): (u: string)
    ensures |u| == |s|
    ensures forall k :: 0 <= k < |s| ==> u[k] == UpperChar(s[k])
  {
    seq(|s|, k requires 0 <= k < |s| => UpperChar(s[k]))
  }

  /** What the reader keeps of a line: stripped, then upper-cased. */
  function Normalize(line: string): string
  {
    Upper(Strip(line))
  }

  predicate StartsWith(s: string, prefix: string)
  {
    |prefix| <= |s| && s[..|prefix|] == prefix
  }

  /** The stripped line is the line with white space cut off both ends and none left at
      either end of what remains; a line of white space strips to nothing. */
  lemma StripIsTrim(s: string)
    ensures var r := Strip(s);
      (r == [] <==> forall k :: 0 <= k < |s| ==> IsSpace(s[k]))
      && (r != [] ==> !IsSpace(r[0]) && !IsSpace(r[|r| - 1]))
      && exists a, b :: 0 <= a <= b <= |s| && r == s[a..b]
           && (forall k :: 0 <= k < a ==> IsSpace(s[k]))
           && (forall k :: b <= k < |s| ==> IsSpace(s[k]))
  {
    var a := SkipSpaces(s, 0);
    var b := TrimmedEnd(s, |s|);
    var r := Strip(s);
    if b <= a {
      forall k | 0 <= k < |s|
        ensures IsSpace(s[k])
      {
        if k >= b {
        } else {
          assert k < a;
        }
      }
      assert r == s[a..a];
    } else {
      assert r == s[a..b];
      assert !IsSpace(s[a]);
    }
  }

  // ---------------------------------------------------------------------------
  // Numbers
  // ---------------------------------------------------------------------------

  predicate IsDigit(c: char)
  {
    '0' <= c <= '9'
  }

  /** A character of the pattern class `[\d\.-]`, with `\d` taken as the ASCII digits only:
      Python's `str` patterns also match other Unicode decimal digits there. */
  predicate IsNumberChar(c: char)
  {
    IsDigit(c) || c == '.' || c == '-'
  }

  predicate AllDigits(s: string)
  {
    forall k :: 0 <= k < |s| ==> IsDigit(s[k])
  }

  function DigitValue(c: char): nat
    requires IsDigit(c)
  {
    c as int - '0' as int
  }

  /** The value of a string of decimal digits, most significant first. */
  function DigitsValue(s: string): nat
    requires AllDigits(s)
    decreases |s|
  {
    if s == [] then 0 else DigitsValue(s[..|s| - 1]) * 10 + DigitValue(s[|s| - 1])
  }

  /** The value of the fraction digits `s` after a point: 0.d1d2... = (d1 + 0.d2...) / 10. */
  function FracValue(s: string): real
    requires AllDigits(s)
    decreases |s|
  {
    if s == [] then 0.0 else (DigitValue(s[0]) as real + FracValue(s[1..])) / 10.0
  }

  /** Index of the first `.` in `s`, if any. */
  function DotIndex(s: string): (r: Option<nat>)
    ensures r.Some? ==> r.value < |s| && s[r.value] == '.' && forall k :: 0 <= k < r.value ==> s[k] != '.'
    ensures r.None? ==> forall k :: 0 <= k < |s| ==> s[k] != '.'
    decreases |s|
  {
    if s == [] then None
    else if s[0] == '.' then Some(0)
    else match DotIndex(s[1..])
      case None => None
      case Some(k) => Some(k + 1)
  }

  datatype ParseError = InvalidNumber(token: string)

  /** The value of `whole.frac` for digit strings `whole` and `frac`. */
  function Decimal(whole: string, frac: string): real
    requires AllDigits(whole) && AllDigits(frac)
  {
    DigitsValue(whole) as real + FracValue(frac)
  }

  /** An unsigned numeral: digits with at most one point and at least one digit. */
  function ParseUnsigned(body: string): Option<real>
  {
    var whole := match DotIndex(body) case None => body case Some(k) => body[..k];
    var frac := match DotIndex(body) case None => "" case Some(k) => body[k + 1..];
    if AllDigits(whole) && AllDigits(frac) && |whole| + |frac| > 0 then Some(Decimal(whole, frac)) else None
  }

  /** Python's `float` on a token made of digits, `.` and `-`: an optional minus, then an
      unsigned numeral; its exact decimal value. */
  function ParseFloat(tok: string): Result<real, ParseError>
  {
    var neg := |tok| > 0 && tok[0] == '-';
    match ParseUnsigned(if neg then tok[1..] else tok)
    case None => Err(InvalidNumber(tok))
    case Some(v) => Ok(if neg then -v else v)
  }

  function Digit(d: nat): (c: char)
    requires d < 10
    ensures IsDigit(c) && DigitValue(c) == d
  {
    ('0' as int + d) as char
  }

  /** The decimal numeral of `n`, without leading zeros. */
  function NaturalText(n: nat): (s: string)
    ensures |s| >= 1 && AllDigits(s)
  {
    if n < 10 then [Digit(n)] else NaturalText(n / 10) + [Digit(n % 10)]
  }

  /** Integer numeral, with a leading minus when negative, as `str(n)` writes it. */
  function IntText(n: int): string
  {
    if n < 0 then "-" + NaturalText(-n) else NaturalText(n)
  }

  /** The `:.2f` text of the value `c / 100`: sign, whole part, point and two digits. */
  function Fixed2Text(c: int): string
  {
    if c < 0 then "-" + UnsignedFixed2(-c) else UnsignedFixed2(c)
  }

  function UnsignedFixed2(m: nat): string
  {
    NaturalText(m / 100) + "." + [Digit(m % 100 / 10), Digit(m % 10)]
  }

  lemma {:induction false} NaturalTextValue(n: nat)
    ensures DigitsValue(NaturalText(n)) == n
  {
    if n >= 10 {
      var s := NaturalText(n);
      NaturalTextValue(n / 10);
      assert s[..|s| - 1] == NaturalText(n / 10);
    }
  }

  lemma NoDot(s: string)
    requires AllDigits(s)
    ensures DotIndex(s).None?
  {
    if DotIndex(s).Some? {
      assert IsDigit(s[DotIndex(s).value]);
    }
  }

  lemma DotAfter(whole: string, frac: string)
    requires AllDigits(whole) && AllDigits(frac)
    ensures DotIndex(whole + "." + frac) == Some(|whole|)
  {
    var s := whole + "." + frac;
    assert s[|whole|] == '.';
    assert forall k :: 0 <= k < |whole| ==> s[k] == whole[k] && s[k] != '.';
  }

  /** A numeral with a point, with or without a leading minus: whole digits, the point,
      fraction digits. */
  lemma ParsePointed(s: string, whole: string, frac: string)
    requires AllDigits(whole) && AllDigits(frac) && |whole| >= 1 && s == whole + "." + frac
    ensures ParseFloat(s) == Ok(Decimal(whole, frac))
    ensures ParseFloat("-" + s) == Ok(-Decimal(whole, frac))
  {
    DotAfter(whole, frac);
    assert s[..|whole|] == whole;
    assert s[|whole| + 1..] == frac;
    assert ParseUnsigned(s) == Some(Decimal(whole, frac));
    assert ("-" + s)[1..] == s;
    assert IsDigit(s[0]);
  }

  lemma HundredthsValue(q: nat, r: nat)
    ensures q as real + r as real / 100.0 == (100 * q + r) as real / 100.0
  {
  }

  /** Reading back the numeral of an integer gives the integer. */
  lemma IntTextRoundTrip(n: int)
    ensures ParseFloat(IntText(n)) == Ok(n as real)
  {
    var m := if n < 0 then -n else n;
    NaturalTextValue(m);
    NoDot(NaturalText(m));
    if n < 0 {
      assert IntText(n)[1..] == NaturalText(m);
    }
  }

  /** The whole digits of m / 100 with the tens and units digits of m after the point are
      worth m / 100. */
  lemma DecimalOfDigits(whole: string, m: nat)
    requires AllDigits(whole) && DigitsValue(whole) == m / 100
    ensures Decimal(whole, [Digit(m % 100 / 10), Digit(m % 10)]) == m as real / 100.0
  {
    var q, t, u := m / 100, m % 100 / 10, m % 10;
    var frac := [Digit(t), Digit(u)];
    assert frac[1..] == [Digit(u)];
    assert [Digit(u)][1..] == [];
    assert FracValue([Digit(u)]) == u as real / 10.0;
    assert FracValue(frac) == (10 * t + u) as real / 100.0;
    HundredsDigits(m);
    HundredthsValue(q, 10 * t + u);
  }

  lemma HundredsDigits(m: nat)
    ensures m == 100 * (m / 100) + 10 * (m % 100 / 10) + m % 10
  {
    var q, r := m / 100, m % 100;
    assert m == 100 * q + r;
    assert r == 10 * (r / 10) + r % 10;
    assert m % 10 == r % 10 by {
      assert m == 10 * (10 * q + r / 10) + r % 10;
    }
  }

  /** The unsigned two-decimal text, with or without a leading minus, reads as m / 100. */
  lemma UnsignedFixed2Reads(m: nat)
    ensures ParseFloat(UnsignedFixed2(m)) == Ok(m as real / 100.0)
    ensures ParseFloat("-" + UnsignedFixed2(m)) == Ok(-(m as real / 100.0))
  {
    var whole, frac := NaturalText(m / 100), [Digit(m % 100 / 10), Digit(m % 10)];
    NaturalTextValue(m / 100);
    DecimalOfDigits(whole, m);
    ParsePointed(UnsignedFixed2(m), whole, frac);
  }

  /** Reading back a two-decimal numeral gives its value exactly. */
  lemma Fixed2RoundTrip(c: int)
    ensures ParseFloat(Fixed2Text(c)) == Ok(c as real / 100.0)
  {
    if c < 0 {
      NegativeFixed2Reads(-c);
      assert -((-c) as real / 100.0) == c as real / 100.0;
    } else {
      UnsignedFixed2Reads(c);
    }
  }

  lemma NegativeFixed2Reads(m: nat)
    requires m > 0
    ensures ParseFloat(Fixed2Text(-(m as int))) == Ok(-(m as real / 100.0))
  {
    var c := -(m as int);
    assert -c == m;
    assert Fixed2Text(c) == "-" + UnsignedFixed2(m);
    UnsignedFixed2Reads(m);
  }

  /** The sign-less part of a token: without its leading minus, if it has one. */
  function Unsigned(tok: string): string
  {
    if |tok| > 0 && tok[0] == '-' then tok[1..] else tok
  }

  /** What `float` accepts among strings of digits, `.` and `-`: after an optional leading
      minus, no minus, at most one point, and at least one digit. */
  predicate Numeral(tok: string)
  {
    UnsignedNumeral(Unsigned(tok))
  }

  /** A token the pattern `[\d\.-]+` captures reads as a number exactly when it is a numeral;
      a second point, a minus after the first character, or no digit at all is an error. */
  lemma FloatAcceptsNumerals(tok: string)
    requires forall k :: 0 <= k < |tok| ==> IsNumberChar(tok[k])
    ensures ParseFloat(tok).Ok? <==> Numeral(tok)
  {
    var body := Unsigned(tok);
    assert forall k :: 0 <= k < |body| ==> IsNumberChar(body[k]) by {
      if |tok| > 0 && tok[0] == '-' {
        assert forall k :: 0 <= k < |body| ==> body[k] == tok[k + 1];
      }
    }
    UnsignedAcceptsNumerals(body);
  }

  /** `body` has no minus, at most one point, and a digit. */
  predicate UnsignedNumeral(body: string)
  {
    (forall k :: 0 <= k < |body| ==> body[k] != '-')
    && (forall k, l :: 0 <= k < l < |body| && body[k] == '.' ==> body[l] != '.')
    && (exists k :: 0 <= k < |body| && IsDigit(body[k]))
  }

  lemma UnsignedAcceptsNumerals(body: string)
    requires forall k :: 0 <= k < |body| ==> IsNumberChar(body[k])
    ensures ParseUnsigned(body).Some? <==> UnsignedNumeral(body)
  {
    if ParseUnsigned(body).Some? {
      AcceptedIsNumeral(body);
    }
    if UnsignedNumeral(body) {
      NumeralIsAccepted(body);
    }
  }

  lemma AcceptedIsNumeral(body: string)
    requires ParseUnsigned(body).Some?
    ensures UnsignedNumeral(body)
  {
    match DotIndex(body)
    case None =>
      assert IsDigit(body[0]);
    case Some(d) =>
      var whole, frac := body[..d], body[d + 1..];
      assert forall k :: 0 <= k < |body| && k != d ==> IsDigit(body[k]) by {
        forall k | 0 <= k < |body| && k != d
          ensures IsDigit(body[k])
        {
          if k < d { assert body[k] == whole[k]; } else { assert body[k] == frac[k - d - 1]; }
        }
      }
      var j := if |whole| > 0 then 0 else d + 1;
      assert IsDigit(body[j]);
  }

  lemma NumeralIsAccepted(body: string)
    requires forall k :: 0 <= k < |body| ==> IsNumberChar(body[k])
    requires UnsignedNumeral(body)
    ensures ParseUnsigned(body).Some?
  {
    var j :| 0 <= j < |body| && IsDigit(body[j]);
    match DotIndex(body)
    case None =>
      assert AllDigits(body);
    case Some(d) =>
      var whole, frac := body[..d], body[d + 1..];
      assert AllDigits(frac) by {
        forall k | 0 <= k < |frac|
          ensures IsDigit(frac[k])
        {
          assert frac[k] == body[d + 1 + k];
        }
      }
      assert AllDigits(whole);
      assert j != d;
  }

  /** Tokens the pattern captures but `float` rejects. */
  lemma MalformedNumbers()
    ensures ParseFloat("-").Err?
    ensures ParseFloat(".").Err?
    ensures ParseFloat("1.2.3").Err?
    ensures ParseFloat("1-2").Err?
  {
    assert DotIndex("1.2.3") == Some(1);
    assert "1.2.3"[2..] == "2.3";
    assert !IsDigit("2.3"[1]);
    assert "-"[1..] == "";
    assert DotIndex("1-2") == None by {
      assert "1-2"[1..] == "-2";
      assert "-2"[1..] == "2";
      assert "2"[1..] == "";
    }
    assert !IsDigit("1-2"[1]);
  }

  // ---------------------------------------------------------------------------
  // The G pattern
  // ---------------------------------------------------------------------------

  /** One past the longest run of number characters starting at `i`. */
  function TokenEnd(s: string, i: nat): (j: nat)
    requires i <= |s|
    ensures i <= j <= |s|
    ensures forall k :: i <= k < j ==> IsNumberChar(s[k])
    ensures j == |s| || !IsNumberChar(s[j])
    decreases |s| - i
  {
    if i == |s| || !IsNumberChar(s[i]) then i else TokenEnd(s, i + 1)
  }

  /** An optional group `(<letter>([\d\.-]+))?` at `i`: the token and where matching goes on. */
  function OptField(s: string, i: nat, letter: char): (r: (Option<string>, nat))
    requires i <= |s|
    ensures i <= r.1 <= |s|
  {
    if i < |s| && s[i] == letter && TokenEnd(s, i + 1) > i + 1 then (Some(s[i + 1..TokenEnd(s, i + 1)]), TokenEnd(s, i + 1))
    else (None, i)
  }

  /** The groups a successful search captures: the G number and the five field tokens. */
  datatype GMatch = GMatch(code: nat, x: Option<string>, y: Option<string>, i: Option<string>,
                           j: Option<string>, f: Option<string>)

  predicate GAt(s: string, p: nat)
  {
    p + 1 < |s| && s[p] == 'G' && '0' <= s[p + 1] <= '3'
  }

  /** The leftmost position at or after `from` where `G[0-3]` occurs. */
  function FindG(s: string, from: nat): (r: Option<nat>)
    ensures r.Some? ==> from <= r.value && GAt(s, r.value) && forall p :: from <= p < r.value ==> !GAt(s, p)
    ensures r.None? ==> forall p :: from <= p ==> !GAt(s, p)
    decreases |s| - from
  {
    if from + 1 >= |s| then None
    else if GAt(s, from) then Some(from)
    else FindG(s, from + 1)
  }

  /** The greedy match of the rest of the pattern after `G[0-3]` at `p`: each `\s*` takes all
      white space and each optional field is taken when present. */
  function MatchAt(s: string, p: nat): GMatch
    requires GAt(s, p)
  {
    var x := OptField(s, SkipSpaces(s, p + 2), 'X');
    var y := OptField(s, SkipSpaces(s, x.1), 'Y');
    var i := OptField(s, SkipSpaces(s, y.1), 'I');
    var j := OptField(s, SkipSpaces(s, i.1), 'J');
    var f := OptField(s, SkipSpaces(s, j.1), 'F');
    GMatch(s[p + 1] as int - '0' as int, x.0, y.0, i.0, j.0, f.0)
  }

  /** `re.search` of the G pattern; it fails only when no `G[0-3]` occurs. */
  function SearchG(s: string): Option<GMatch>
  {
    match FindG(s, 0)
    case None => None
    case Some(p) => Some(MatchAt(s, p))
  }

  // ---------------------------------------------------------------------------
  // Lines
  // ---------------------------------------------------------------------------

  datatype Kind = M3 | M5 | G(code: nat)

  /** A recognised line: its normalised text, its type and the numeric fields found. Pen
      commands carry no fields. */
  datatype Parsed = Parsed(raw: string, kind: Kind, x: Option<real>, y: Option<real>,
                           i: Option<real>, j: Option<real>, f: Option<real>)

  function ParseField(tok: Option<string>): Result<Option<real>, ParseError>
  {
    match tok
    case None => Ok(None)
    case Some(t) => match ParseFloat(t) case Err(e) => Err(e) case Ok(v) => Ok(Some(v))
  }

  /** Converts the captured fields in the order X, Y, I, J, F; the first bad one is the error. */
  function ConvertMatch(raw: string, m: GMatch): Result<Parsed, ParseError>
  {
    match ParseField(m.x)
    case Err(e) => Err(e)
    case Ok(x) =>
      match ParseField(m.y)
      case Err(e) => Err(e)
      case Ok(y) =>
        match ParseField(m.i)
        case Err(e) => Err(e)
        case Ok(i) =>
          match ParseField(m.j)
          case Err(e) => Err(e)
          case Ok(j) =>
            match ParseField(m.f)
            case Err(e) => Err(e)
            case Ok(f) => Ok(Parsed(raw, G(m.code), x, y, i, j, f))
  }

  /** A normalised line: `Ok(None)` when it yields no command. */
  function ParseNormalized(s: string): Result<Option<Parsed>, ParseError>
  {
    if s == [] || s[0] == ';' then Ok(None)
    else if StartsWith(s, "M3") then Ok(Some(Parsed(s, M3, None, None, None, None, None)))
    else if StartsWith(s, "M5") then Ok(Some(Parsed(s, M5, None, None, None, None, None)))
    else if s[0] == 'G' then ParseG(s)
    else Ok(None)
  }

  /** A line starting with `G`: the search, then the conversion of what it captured. */
  function ParseG(s: string): Result<Option<Parsed>, ParseError>
  {
    match SearchG(s)
    case None => Ok(None)
    case Some(m) => match ConvertMatch(s, m) case Err(e) => Err(e) case Ok(c) => Ok(Some(c))
  }

  /** One input line, as the reader's loop body treats it. */
  function ParseLine(line: string): Result<Option<Parsed>, ParseError>
  {
    ParseNormalized(Normalize(line))
  }

  /** Whether a normalised line yields a command (assuming its numbers parse). */
  predicate Recognised(s: string)
  {
    s != [] && s[0] != ';'
    && (StartsWith(s, "M3") || StartsWith(s, "M5") || (s[0] == 'G' && exists p :: 0 <= p < |s| && GAt(s, p)))
  }

  /** The search fails exactly when no `G0`..`G3` occurs in the line. */
  lemma SearchGFinds(s: string)
    ensures SearchG(s).Some? <==> exists p :: 0 <= p < |s| && GAt(s, p)
  {
    if SearchG(s).None? {
      assert forall p :: 0 <= p ==> !GAt(s, p);
    } else {
      var p := FindG(s, 0).value;
      assert 0 <= p < |s| && GAt(s, p);
    }
  }

  /** A converted match keeps the line and is typed by the digit after `G`. */
  lemma ConvertKeepsLine(raw: string, m: GMatch)
    ensures ConvertMatch(raw, m).Ok? ==> ConvertMatch(raw, m).value.raw == raw && ConvertMatch(raw, m).value.kind == G(m.code)
  {
  }

  /** A normalised line yields a command exactly when it is neither blank nor a comment and
      starts with `M3`, with `M5`, or with `G` and contains `G0`..`G3`; the command keeps the
      line; the `M3` prefix is tested first, then `M5`, then `G`; and only such a `G` line
      can fail, on a number that does not parse. */
  lemma ClassifyNormalized(s: string)
    ensures var r := ParseNormalized(s);
      (r.Ok? && r.value.Some? ==> r.value.value.raw == s)
      && (r.Err? ==> Recognised(s) && !StartsWith(s, "M3") && !StartsWith(s, "M5"))
      && (r == Ok(None) <==> !Recognised(s))
      && (r.Ok? && r.value.Some? && r.value.value.kind == M3 <==> s != [] && s[0] != ';' && StartsWith(s, "M3"))
      && (r.Ok? && r.value.Some? && r.value.value.kind == M5 <==> s != [] && s[0] != ';' && StartsWith(s, "M5") && !StartsWith(s, "M3"))
  {
    SearchGFinds(s);
    match SearchG(s)
    case None =>
    case Some(m) => ConvertKeepsLine(s, m);
  }

  /** The same, for a raw input line: what counts is the line stripped and upper-cased. */
  lemma ParseLineClassifies(line: string)
    ensures var s := Normalize(line);
      var r := ParseLine(line);
      (r.Ok? && r.value.Some? ==> r.value.value.raw == s)
      && (r.Err? ==> Recognised(s) && !StartsWith(s, "M3") && !StartsWith(s, "M5"))
      && (r == Ok(None) <==> !Recognised(s))
      && (r.Ok? && r.value.Some? && r.value.value.kind == M3 <==> s != [] && s[0] != ';' && StartsWith(s, "M3"))
      && (r.Ok? && r.value.Some? && r.value.value.kind == M5 <==> s != [] && s[0] != ';' && StartsWith(s, "M5") && !StartsWith(s, "M3"))
  {
    ClassifyNormalized(Normalize(line));
  }

  // ---------------------------------------------------------------------------
  // The lines the generators write
  // ---------------------------------------------------------------------------

  /** A number as the generators write it: one or more number characters. */
  predicate IsToken(t: string)
  {
    |t| >= 1 && forall k :: 0 <= k < |t| ==> IsNumberChar(t[k])
  }

  predicate NoLowerCase(s: string)
  {
    forall k :: 0 <= k < |s| ==> !('a' <= s[k] <= 'z')
  }

  lemma UpperKeeps(s: string)
    requires NoLowerCase(s)
    ensures Upper(s) == s
  {
  }

  lemma StripKeeps(s: string)
    requires s != [] && !IsSpace(s[0]) && !IsSpace(s[|s| - 1])
    ensures Strip(s) == s
  {
    assert SkipSpaces(s, 0) == 0;
    assert TrimmedEnd(s, |s|) == |s|;
  }

  /** A line whose first character is `;` is a comment, whatever follows. */
  lemma CommentLineSkipped(line: string)
    requires line != [] && line[0] == ';'
    ensures ParseLine(line) == Ok(None)
  {
    var a := SkipSpaces(line, 0);
    var b := TrimmedEnd(line, |line|);
    assert a == 0;
    assert b >= 1;
    assert Strip(line)[0] == ';';
  }

  /** The pen-down and pen-up lines read as `M3` and `M5`. */
  lemma PenLines()
    ensures ParseLine("M3 ; Pen Down").Ok? && ParseLine("M3 ; Pen Down").value.Some?
    ensures ParseLine("M3 ; Pen Down").value.value.kind == M3
    ensures ParseLine("M5 ; Pen Up").Ok? && ParseLine("M5 ; Pen Up").value.Some?
    ensures ParseLine("M5 ; Pen Up").value.value.kind == M5
  {
    StripKeeps("M3 ; Pen Down");
    StripKeeps("M5 ; Pen Up");
    assert Normalize("M3 ; Pen Down")[..2] == "M3";
    assert Normalize("M5 ; Pen Up")[..2] == "M5";
  }

  lemma TokenEndAfter(s: string, i: nat, t: string)
    requires IsToken(t) && i + |t| <= |s| && s[i..i + |t|] == t
    requires i + |t| == |s| || !IsNumberChar(s[i + |t|])
    ensures TokenEnd(s, i) == i + |t|
    decreases |t|
  {
    assert s[i] == t[0];
    if |t| > 1 {
      assert s[i + 1..i + |t|] == t[1..];
      TokenEndAfter(s, i + 1, t[1..]);
    }
  }

  /** The field `<letter><t>` at `i`, followed by something that is not a number character. */
  lemma FieldAt(s: string, i: nat, letter: char, t: string)
    requires IsToken(t) && i + 1 + |t| <= |s| && s[i] == letter && s[i + 1..i + 1 + |t|] == t
    requires i + 1 + |t| == |s| || !IsNumberChar(s[i + 1 + |t|])
    ensures OptField(s, i, letter) == (Some(t), i + 1 + |t|)
  {
    TokenEndAfter(s, i + 1, t);
  }

  /** The characters of `G1 X<x> Y<y>` followed by `tail`, one by one. */
  lemma MoveLayout(s: string, x: string, y: string, tail: string)
    requires s == "G1 X" + x + " Y" + y + tail
    ensures |s| == 6 + |x| + |y| + |tail|
    ensures s[0] == 'G' && s[1] == '1' && s[2] == ' ' && s[3] == 'X'
    ensures s[4..4 + |x|] == x && s[4 + |x|] == ' ' && s[5 + |x|] == 'Y'
    ensures s[6 + |x|..6 + |x| + |y|] == y && s[6 + |x| + |y|..] == tail
  {
  }

  /** `G1 X<x> Y<y>` followed by something that is not a number character: the search finds
      `G1` at the start and the X and Y fields. */
  lemma MatchXY(s: string, x: string, y: string)
    requires IsToken(x) && IsToken(y)
    requires 6 + |x| + |y| <= |s| && s[0] == 'G' && s[1] == '1' && s[2] == ' ' && s[3] == 'X'
    requires s[4..4 + |x|] == x && s[4 + |x|] == ' ' && s[5 + |x|] == 'Y' && s[6 + |x|..6 + |x| + |y|] == y
    requires 6 + |x| + |y| == |s| || !IsNumberChar(s[6 + |x| + |y|])
    ensures FindG(s, 0) == Some(0)
    ensures OptField(s, SkipSpaces(s, 2), 'X') == (Some(x), 4 + |x|)
    ensures OptField(s, SkipSpaces(s, 4 + |x|), 'Y') == (Some(y), 6 + |x| + |y|)
  {
    GFirst(s);
    SpacedFieldAt(s, 2, 'X', x, 4 + |x|);
    YFieldAt(s, x, y);
  }

  lemma YFieldAt(s: string, x: string, y: string)
    requires IsToken(x) && IsToken(y)
    requires 6 + |x| + |y| <= |s| && s[4 + |x|] == ' ' && s[5 + |x|] == 'Y' && s[6 + |x|..6 + |x| + |y|] == y
    requires 6 + |x| + |y| == |s| || !IsNumberChar(s[6 + |x| + |y|])
    ensures OptField(s, SkipSpaces(s, 4 + |x|), 'Y') == (Some(y), 6 + |x| + |y|)
  {
    var i, e := 4 + |x|, 6 + |x| + |y|;
    assert e == i + 2 + |y| && s[i + 2..e] == y;
    SpacedFieldAt(s, i, 'Y', y, e);
  }

  /** A line starting with `G` and a digit up to 3 has its G command at the start. */
  lemma GFirst(s: string)
    requires 2 <= |s| && s[0] == 'G' && '0' <= s[1] <= '3'
    ensures FindG(s, 0) == Some(0)
  {
    assert GAt(s, 0);
  }

  /** A space, then a field: skipping the space reaches the field's letter. */
  lemma SpacedFieldAt(s: string, i: nat, letter: char, t: string, e: nat)
    requires IsToken(t) && e == i + 2 + |t| <= |s| && s[i] == ' ' && s[i + 1] == letter && !IsSpace(letter)
    requires s[i + 2..e] == t && (e == |s| || !IsNumberChar(s[e]))
    ensures OptField(s, SkipSpaces(s, i), letter) == (Some(t), e)
  {
    assert SkipSpaces(s, i) == i + 1;
    FieldAt(s, i + 1, letter, t);
  }

  /** The search result from the field tokens and the positions matching reaches. */
  lemma SearchFromFields(s: string, x: (Option<string>, nat), y: (Option<string>, nat), i: (Option<string>, nat),
                         j: (Option<string>, nat), f: (Option<string>, nat))
    requires FindG(s, 0) == Some(0) && s[1] == '1'
    requires x.1 <= |s| && y.1 <= |s| && i.1 <= |s| && j.1 <= |s|
    requires x == OptField(s, SkipSpaces(s, 2), 'X') && y == OptField(s, SkipSpaces(s, x.1), 'Y')
    requires i == OptField(s, SkipSpaces(s, y.1), 'I') && j == OptField(s, SkipSpaces(s, i.1), 'J')
    requires f == OptField(s, SkipSpaces(s, j.1), 'F')
    ensures SearchG(s) == Some(GMatch(1, x.0, y.0, i.0, j.0, f.0))
  {
  }

  /** `G1 X<x> Y<y>`: a move without feed. */
  lemma MatchMove(x: string, y: string)
    requires IsToken(x) && IsToken(y)
    ensures SearchG("G1 X" + x + " Y" + y) == Some(GMatch(1, Some(x), Some(y), None, None, None))
  {
    var s := "G1 X" + x + " Y" + y;
    assert s == "G1 X" + x + " Y" + y + "";
    MoveLayout(s, x, y, "");
    MatchXY(s, x, y);
    var e := 6 + |x| + |y|;
    assert SkipSpaces(s, e) == e;
    SearchFromFields(s, (Some(x), 4 + |x|), (Some(y), e), (None, e), (None, e), (None, e));
  }

  /** After the Y field, ` F<f>` to the end: the feed is `f` and there is no I or J field. */
  lemma FeedTail(s: string, x: string, y: string, f: string)
    requires IsToken(x) && IsToken(y) && IsToken(f)
    requires 8 + |x| + |y| + |f| == |s| && s[0] == 'G' && s[1] == '1' && s[2] == ' ' && s[3] == 'X'
    requires s[4..4 + |x|] == x && s[4 + |x|] == ' ' && s[5 + |x|] == 'Y' && s[6 + |x|..6 + |x| + |y|] == y
    requires s[6 + |x| + |y|] == ' ' && s[7 + |x| + |y|] == 'F' && s[8 + |x| + |y|..] == f
    ensures SearchG(s) == Some(GMatch(1, Some(x), Some(y), None, None, Some(f)))
  {
    var e := 6 + |x| + |y|;
    MatchXY(s, x, y);
    assert SkipSpaces(s, e + 1) == e + 1;
    assert SkipSpaces(s, e) == e + 1;
    FieldAt(s, e + 1, 'F', f);
    SearchFromFields(s, (Some(x), 4 + |x|), (Some(y), e), (None, e + 1), (None, e + 1), (Some(f), |s|));
  }

  /** After the Y field, ` ;` and a comment: there is no further field. */
  lemma CommentTail(s: string, x: string, y: string)
    requires IsToken(x) && IsToken(y)
    requires 8 + |x| + |y| <= |s| && s[0] == 'G' && s[1] == '1' && s[2] == ' ' && s[3] == 'X'
    requires s[4..4 + |x|] == x && s[4 + |x|] == ' ' && s[5 + |x|] == 'Y' && s[6 + |x|..6 + |x| + |y|] == y
    requires s[6 + |x| + |y|] == ' ' && s[7 + |x| + |y|] == ';'
    ensures SearchG(s) == Some(GMatch(1, Some(x), Some(y), None, None, None))
  {
    var e := 6 + |x| + |y|;
    MatchXY(s, x, y);
    assert SkipSpaces(s, e) == e + 1;
    NoFieldsAt(s, e + 1);
    SearchFromFields(s, (Some(x), 4 + |x|), (Some(y), e), (None, e + 1), (None, e + 1), (None, e + 1));
  }

  /** At a `;` there is no I, J or F field, and no space to skip. */
  lemma NoFieldsAt(s: string, p: nat)
    requires p < |s| && s[p] == ';'
    ensures SkipSpaces(s, p) == p
    ensures OptField(s, p, 'I') == (None, p) && OptField(s, p, 'J') == (None, p) && OptField(s, p, 'F') == (None, p)
  {
  }

  /** `G1 X<x> Y<y> F<f>`: a move with feed. */
  lemma MatchFeedMove(x: string, y: string, f: string)
    requires IsToken(x) && IsToken(y) && IsToken(f)
    ensures SearchG("G1 X" + x + " Y" + y + (" F" + f)) == Some(GMatch(1, Some(x), Some(y), None, None, Some(f)))
  {
    var s := "G1 X" + x + " Y" + y + (" F" + f);
    var e := 6 + |x| + |y|;
    MoveLayout(s, x, y, " F" + f);
    assert s[e] == ' ' && s[e + 1] == 'F' && s[e + 2..] == f;
    FeedTail(s, x, y, f);
  }

  /** `G1 X<x> Y<y> ;<comment>`: a move without feed, commented. */
  lemma MatchCommentedMove(x: string, y: string, comment: string)
    requires IsToken(x) && IsToken(y)
    ensures SearchG("G1 X" + x + " Y" + y + (" ;" + comment)) == Some(GMatch(1, Some(x), Some(y), None, None, None))
  {
    var s := "G1 X" + x + " Y" + y + (" ;" + comment);
    var e := 6 + |x| + |y|;
    MoveLayout(s, x, y, " ;" + comment);
    assert s[e] == ' ' && s[e + 1] == ';';
    CommentTail(s, x, y);
  }

  /** A line already stripped and upper-cased that starts with `G` and in which the search
      finds `m`: it reads as the conversion of `m`. */
  lemma ReadsGLine(s: string, m: GMatch)
    requires s != [] && s[0] == 'G' && Normalize(s) == s && SearchG(s) == Some(m)
    ensures ConvertMatch(s, m).Ok? ==> ParseLine(s) == Ok(Some(ConvertMatch(s, m).value))
    ensures ConvertMatch(s, m).Err? ==> ParseLine(s) == Err(ConvertMatch(s, m).error)
  {
    GLineRoute(s);
  }

  /** A normalized line starting with `G` is neither a pen command nor a comment: the reader
      searches it for a G command. */
  lemma GLineRoute(s: string)
    requires s != [] && s[0] == 'G' && Normalize(s) == s
    ensures ParseLine(s) == ParseG(s)
  {
    assert ParseLine(s) == ParseNormalized(s);
    assert !StartsWith(s, "M3") by {
      if 2 <= |s| { assert s[..2][0] == 'G'; }
    }
    assert !StartsWith(s, "M5") by {
      if 2 <= |s| { assert s[..2][0] == 'G'; }
    }
    assert s[0] != ';';
  }

  /** A token converts to the value it reads as. */
  lemma FieldReads(t: string, v: real)
    requires ParseFloat(t) == Ok(v)
    ensures ParseField(Some(t)) == Ok(Some(v))
  {
  }

  /** The line `G1 X<x> Y<y>`, `G1 X<x> Y<y> F<f>` or `G1 X<x> Y<y> ;<comment>` is kept as it
      is by stripping and upper-casing when it has no lower-case letter and does not end in
      white space. */
  lemma NormalizeKeeps(s: string)
    requires s != [] && !IsSpace(s[0]) && !IsSpace(s[|s| - 1]) && NoLowerCase(s)
    ensures Normalize(s) == s
  {
    StripKeeps(s);
    UpperKeeps(s);
  }

  lemma NoLowerCaseConcat(a: string, b: string)
    requires NoLowerCase(a) && NoLowerCase(b)
    ensures NoLowerCase(a + b)
  {
    assert forall k :: 0 <= k < |a + b| ==> (a + b)[k] == if k < |a| then a[k] else b[k - |a|];
  }

  lemma TokenHasNoLowerCase(t: string)
    requires IsToken(t)
    ensures NoLowerCase(t) && !IsSpace(t[|t| - 1])
  {
  }

  /** A natural number's numeral is a token, and reads as the number. */
  lemma NaturalTextReads(n: nat)
    ensures IsToken(NaturalText(n)) && ParseFloat(NaturalText(n)) == Ok(n as real)
  {
    IntTextRoundTrip(n);
  }

  lemma UnsignedFixed2IsToken(m: nat)
    ensures IsToken(UnsignedFixed2(m))
  {
    var w := NaturalText(m / 100);
    var u := UnsignedFixed2(m);
    assert u == w + "." + [Digit(m % 100 / 10), Digit(m % 10)];
    assert forall k :: 0 <= k < |w| ==> u[k] == w[k];
  }

  /** A `:.2f` numeral is a token, and reads as the hundredths it was written from. */
  lemma Fixed2TextReads(c: int)
    ensures IsToken(Fixed2Text(c)) && ParseFloat(Fixed2Text(c)) == Ok(c as real / 100.0)
  {
    Fixed2RoundTrip(c);
    if c < 0 {
      var u := UnsignedFixed2(-c);
      UnsignedFixed2IsToken(-c);
      assert Fixed2Text(c) == "-" + u;
      assert forall k :: 1 <= k < |"-" + u| ==> ("-" + u)[k] == u[k - 1];
    } else {
      UnsignedFixed2IsToken(c);
    }
  }


  // ---------------------------------------------------------------------------
  // Whole files
  // ---------------------------------------------------------------------------

  type LineResult = Result<Option<Parsed>, ParseError>

  /** The commands of a sequence of per-line results, or the first error among them. */
  function Collect(rs: seq<LineResult>): Result<seq<Parsed>, ParseError>
    decreases |rs|
  {
    if rs == [] then Ok([])
    else match rs[0]
      case Err(e) => Err(e)
      case Ok(c) =>
        match Collect(rs[1..])
        case Err(e) => Err(e)
        case Ok(rest) => Ok((if c.Some? then [c.value] else []) + rest)
  }

  function LineResults(lines: seq<string>): (rs: seq<LineResult>)
    ensures |rs| == |lines| && forall i :: 0 <= i < |lines| ==> rs[i] == ParseLine(lines[i])
  {
    seq(|lines|, i requires 0 <= i < |lines| => ParseLine(lines[i]))
  }

  /** The command list of a file, or the first number error in it. */
  function ParseGcode(lines: seq<string>): Result<seq<Parsed>, ParseError>
  {
    Collect(LineResults(lines))
  }

  predicate Yields(r: LineResult)
  {
    r.Ok? && r.value.Some?
  }

  /** A file is its first line, then the rest. */
  lemma ParseGcodeCons(lines: seq<string>)
    requires lines != []
    ensures ParseLine(lines[0]).Err? ==> ParseGcode(lines) == Err(ParseLine(lines[0]).error)
    ensures ParseLine(lines[0]).Ok? ==>
      var c := ParseLine(lines[0]).value;
      ParseGcode(lines) == Resume(if c.Some? then [c.value] else [], ParseGcode(lines[1..]))
  {
    var rs := LineResults(lines);
    assert rs[1..] == LineResults(lines[1..]);
    if rs[0].Ok? {
      var here: seq<Parsed> := if rs[0].value.Some? then [rs[0].value.value] else [];
      match ParseGcode(lines[1..])
      case Err(e) =>
      case Ok(cmds) =>
    }
  }

  predicate Increasing(o: seq<nat>)
  {
    forall k, l :: 0 <= k < l < |o| ==> o[k] < o[l]
  }

  /** `o` names only yielding positions and every yielding position from `from` on. */
  predicate NameYields(rs: seq<LineResult>, o: seq<nat>, from: nat)
  {
    (forall k :: 0 <= k < |o| ==> o[k] < |rs| && Yields(rs[o[k]]))
    && (forall i :: from <= i < |rs| && Yields(rs[i]) ==> i in o)
  }

  /** The positions at or after `from` whose result is a command, in increasing order. */
  function Origins(rs: seq<LineResult>, from: nat): (o: seq<nat>)
    requires from <= |rs|
    ensures forall k :: 0 <= k < |o| ==> from <= o[k] < |rs|
    decreases |rs| - from
  {
    if from == |rs| then []
    else if Yields(rs[from]) then [from] + Origins(rs, from + 1)
    else Origins(rs, from + 1)
  }

  lemma {:induction false} CollectOkIff(rs: seq<LineResult>)
    ensures Collect(rs).Ok? <==> forall i :: 0 <= i < |rs| ==> rs[i].Ok?
    decreases |rs|
  {
    if rs != [] {
      CollectOkIff(rs[1..]);
      assert forall i :: 1 <= i < |rs| ==> rs[i] == rs[1..][i - 1];
    }
  }

  lemma {:induction false} OriginsIncrease(rs: seq<LineResult>, from: nat)
    requires from <= |rs|
    ensures Increasing(Origins(rs, from))
    decreases |rs| - from
  {
    if from < |rs| {
      OriginsIncrease(rs, from + 1);
      var o := Origins(rs, from);
      var o1 := Origins(rs, from + 1);
      if Yields(rs[from]) {
        assert o == [from] + o1;
        forall k, l | 0 <= k < l < |o|
          ensures o[k] < o[l]
        {
          assert o[l] == o1[l - 1];
          assert from < o1[l - 1];
          if k > 0 {
            assert o[k] == o1[k - 1];
            assert o1[k - 1] < o1[l - 1];
          } else {
            assert o[k] == from;
          }
        }
      } else {
        assert o == o1;
        assert forall k :: 0 <= k < |o| ==> o[k] == o1[k];
      }
    }
  }

  lemma {:induction false} OriginsYield(rs: seq<LineResult>, from: nat)
    requires from <= |rs|
    ensures NameYields(rs, Origins(rs, from), from)
    decreases |rs| - from
  {
    if from < |rs| {
      OriginsYield(rs, from + 1);
      var o := Origins(rs, from);
      var o1 := Origins(rs, from + 1);
      if Yields(rs[from]) {
        assert o == [from] + o1;
        forall k | 0 <= k < |o|
          ensures Yields(rs[o[k]])
        {
          if k > 0 {
            assert o[k] == o1[k - 1];
          }
        }
      } else {
        assert o == o1;
        assert forall k :: 0 <= k < |o| ==> o[k] == o1[k];
      }
    }
  }

  /** The origins are increasing, name only yielding results, and name every one of them. */
  lemma OriginsAreYieldingPositions(rs: seq<LineResult>, from: nat)
    requires from <= |rs|
    ensures var o := Origins(rs, from);
      (forall k, l :: 0 <= k < l < |o| ==> o[k] < o[l])
      && (forall k :: 0 <= k < |o| ==> Yields(rs[o[k]]))
      && (forall i :: from <= i < |rs| && Yields(rs[i]) ==> i in o)
  {
    OriginsIncrease(rs, from);
    OriginsYield(rs, from);
  }

  /** Collecting keeps the commands, one per yielding result, in order. */
  lemma {:induction false} CollectAtOrigins(rs: seq<LineResult>, from: nat)
    requires from <= |rs| && Collect(rs[from..]).Ok?
    ensures var cmds := Collect(rs[from..]).value;
      var o := Origins(rs, from);
      |cmds| == |o| && forall k :: 0 <= k < |o| ==> rs[o[k]] == Ok(Some(cmds[k]))
    decreases |rs| - from
  {
    if from < |rs| {
      assert rs[from..][1..] == rs[from + 1..];
      CollectAtOrigins(rs, from + 1);
      var o := Origins(rs, from);
      var o1 := Origins(rs, from + 1);
      var cmds := Collect(rs[from..]).value;
      var cmds1 := Collect(rs[from + 1..]).value;
      if Yields(rs[from]) {
        assert o == [from] + o1;
        assert cmds == [rs[from].value.value] + cmds1;
        forall k | 0 <= k < |o|
          ensures rs[o[k]] == Ok(Some(cmds[k]))
        {
          if k > 0 {
            assert o[k] == o1[k - 1] && cmds[k] == cmds1[k - 1];
          }
        }
      } else {
        assert o == o1;
        assert cmds == cmds1;
      }
    }
  }

  lemma {:induction false} OriginsLength(rs: seq<LineResult>, from: nat)
    requires from <= |rs|
    ensures |Origins(rs, from)| <= |rs| - from
    decreases |rs| - from
  {
    if from < |rs| {
      OriginsLength(rs, from + 1);
    }
  }

  /** Loading succeeds exactly when no line fails; then the commands are the commands of the
      yielding lines, one each, in input order: an order-preserving subsequence of the file
      that leaves no yielding line out. */
  lemma ParseGcodeIsSubsequence(lines: seq<string>)
    ensures ParseGcode(lines).Ok? <==> forall i :: 0 <= i < |lines| ==> ParseLine(lines[i]).Ok?
    ensures ParseGcode(lines).Ok? ==>
      var cmds := ParseGcode(lines).value;
      var o := Origins(LineResults(lines), 0);
      |cmds| == |o| <= |lines|
      && (forall k, l :: 0 <= k < l < |o| ==> o[k] < o[l])
      && (forall k :: 0 <= k < |o| ==> ParseLine(lines[o[k]]) == Ok(Some(cmds[k])))
      && (forall i :: 0 <= i < |lines| && Yields(ParseLine(lines[i])) ==> i in o)
  {
    var rs := LineResults(lines);
    CollectOkIff(rs);
    assert rs[0..] == rs;
    OriginsAreYieldingPositions(rs, 0);
    OriginsLength(rs, 0);
    if Collect(rs).Ok? {
      CollectAtOrigins(rs, 0);
    }
  }

  /** The load result once `parsed` has been read and `rest` is the result for the remaining
      lines. */
  function Resume(parsed: seq<Parsed>, rest: Result<seq<Parsed>, ParseError>): Result<seq<Parsed>, ParseError>
  {
    match rest
    case Err(e) => Err(e)
    case Ok(cmds) => Ok(parsed + cmds)
  }

  lemma ResumeNothing(r: Result<seq<Parsed>, ParseError>)
    ensures Resume([], r) == r
  {
    if r.Ok? {
      assert [] + r.value == r.value;
    }
  }

  /** One line of the reader's loop: a good line moves its command (if any) into `parsed`;
      a bad line is the result of the whole load. */
  lemma ReadStep(rs: seq<LineResult>, n: nat, parsed: seq<Parsed>)
    requires n < |rs|
    ensures rs[n].Err? ==> Resume(parsed, Collect(rs[n..])) == Err(rs[n].error)
    ensures rs[n].Ok? ==>
      Resume(parsed, Collect(rs[n..]))
      == Resume(parsed + (if rs[n].value.Some? then [rs[n].value.value] else []), Collect(rs[n + 1..]))
  {
    assert rs[n..][1..] == rs[n + 1..];
    if rs[n].Ok? {
      var c := rs[n].value;
      var here: seq<Parsed> := if c.Some? then [c.value] else [];
      match Collect(rs[n + 1..])
      case Err(e) =>
      case Ok(cmds) =>
        assert parsed + (here + cmds) == (parsed + here) + cmds;
    }
  }

  /** The reader's loop: line by line, stopping at the first number error. */
  method ReadGcode(lines: seq<string>) returns (r: Result<seq<Parsed>, ParseError>)
    ensures r == ParseGcode(lines)
  {
    ghost var rs := LineResults(lines);
    var parsed: seq<Parsed> := [];
    var n := 0;
    assert rs[0..] == rs;
    ResumeNothing(Collect(rs));
    while n < |lines|
      invariant n <= |lines|
      invariant ParseGcode(lines) == Resume(parsed, Collect(rs[n..]))
    {
      var c := ParseLine(lines[n]);
      assert c == rs[n];
      ReadStep(rs, n, parsed);
      if c.Err? {
        return Err(c.error);
      }
      ghost var before := parsed;
      if c.value.Some? {
        parsed := parsed + [c.value.value];
      }
      assert parsed == before + (if rs[n].value.Some? then [rs[n].value.value] else []);
      n := n + 1;
    }
    assert parsed + [] == parsed;
    return Ok(parsed);
  }
}
