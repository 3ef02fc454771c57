/** Amounts: the string clean-up of `parseValor`, the decimal conversion
    that follows it, and the two-decimal rendering used in the output.
    Amounts are exact reals; binary floating point is not modelled. */
module Amounts {
  import opened Wrappers
  import opened Text

  // ---------------------------------------------------------------------
  // Decimal digits
  // ---------------------------------------------------------------------

  predicate IsDigit(c: char) {
    '0' <= c <= '9'
  }

  predicate AllDigits(s: string) {
    forall i :: 0 <= i < |s| ==> IsDigit(s[i])
  }

  function DigitValue(c: char): nat
    requires IsDigit(c)
  {
    c as int - '0' as int
  }

  function Digit(d: nat): (c: char)
    requires d < 10
    ensures IsDigit(c) && DigitValue(c) == d
  {
    ('0' as int + d) as char
  }

  /** Value of a string of decimal digits, most significant first. */
  function DigitsValue(s: string): nat
    requires AllDigits(s)
  {
    if s == [] then 0 else 10 * DigitsValue(s[..|s| - 1]) + DigitValue(s[|s| - 1])
  }

  /** Value of the digits written after a decimal point. */
  function FractionValue(s: string): (r: real)
    requires AllDigits(s)
    ensures 0.0 <= r < 1.0
  {
    if s == [] then 0.0 else (DigitValue(s[0]) as real + FractionValue(s[1..])) / 10.0
  }

  /** The value that decimal notation `ip.fp` denotes. */
  function DecimalValue(ip: string, fp: string): (v: real)
    requires AllDigits(ip) && AllDigits(fp)
    ensures v >= 0.0
  {
    DigitsValue(ip) as real + FractionValue(fp)
  }

  /** Decimal notation of a natural number, without leading zeros. */
  function NatToString(n: nat): (s: string)
    ensures |s| >= 1 && AllDigits(s)
    ensures DigitsValue(s) == n
    ensures s[0] == '0' ==> n == 0
  {
    if n < 10 then [Digit(n)]
    else
      var s := NatToString(n / 10) + [Digit(n % 10)];
      assert s[..|s| - 1] == NatToString(n / 10);
      s
  }

  /** Index of the first `c` in `s`, or -1. */
  function IndexOf(s: string, c: char): (r: int)
    ensures -1 <= r < |s|
    ensures r == -1 <==> c !in s
    ensures r >= 0 ==> s[r] == c && c !in s[..r]
  {
    if s == [] then -1
    else if s[0] == c then 0
    else
      var r := IndexOf(s[1..], c);
      assert s == [s[0]] + s[1..];
      if r == -1 then -1 else
        assert s[..r + 1] == [s[0]] + s[1..][..r];
        r + 1
  }

  // ---------------------------------------------------------------------
  // Decimal conversion (the part of `Double.parseDouble` used here)
  // ---------------------------------------------------------------------

  /** Digits with at most one decimal point and at least one digit:
      `123`, `123.`, `.5`, `12.50`. */
  function ParseUnsigned(s: string): (r: Option<real>)
    ensures r.Some? ==> r.value >= 0.0
  {
    var p := IndexOf(s, '.');
    if p < 0 then
      if s != [] && AllDigits(s) then Some(DecimalValue(s, "")) else None
    else
      var ip, fp := s[..p], s[p + 1..];
      if AllDigits(ip) && AllDigits(fp) && |ip| + |fp| > 0 then
        Some(DecimalValue(ip, fp))
      else None
  }

  /** `Double.parseDouble` on plain decimal notation: surrounding blanks are
      ignored and an optional sign may precede the digits. Any other text has
      no value (the source then falls back to 0.0). */
  function ParseDecimal(s: string): (r: Option<real>)
  {
    var t := Trim(s);
    if |t| > 0 && (t[0] == '-' || t[0] == '+') then
      match ParseUnsigned(t[1..])
      case None => None
      case Some(v) => Some(if t[0] == '-' then -v else v)
    else ParseUnsigned(t)
  }

  function Sign(negative: bool): string {
    if negative then "-" else ""
  }

  function Signed(negative: bool, v: real): real {
    if negative then -v else v
  }

  lemma DigitsHaveNo(s: string, c: char)
    requires AllDigits(s) && !IsDigit(c)
    ensures c !in s
  {
  }

  lemma ParseUnsignedPoint(ip: string, fp: string)
    requires AllDigits(ip) && AllDigits(fp) && |ip| + |fp| > 0
    ensures ParseUnsigned(ip + "." + fp) == Some(DecimalValue(ip, fp))
  {
    var u := ip + "." + fp;
    DigitsHaveNo(ip, '.');
    assert u[..|ip|] == ip && u[|ip| + 1..] == fp;
    var r := IndexOf(u, '.');
    assert u[|ip|] == '.';
    assert r == |ip|;
  }

  lemma ParseUnsignedWhole(ip: string)
    requires AllDigits(ip) && |ip| > 0
    ensures ParseUnsigned(ip) == Some(DecimalValue(ip, ""))
  {
    DigitsHaveNo(ip, '.');
  }

  /** ParseDecimal on a sign followed by an unsigned numeral with no blank margins. */
  lemma ParseDecimalSigned(negative: bool, u: string, v: real)
    requires u != [] && u[0] != '-' && u[0] != '+' && u[0] > ' ' && u[|u| - 1] > ' '
    requires ParseUnsigned(u) == Some(v)
    ensures ParseDecimal(Sign(negative) + u) == Some(Signed(negative, v))
  {
    var s := Sign(negative) + u;
    assert s[|s| - 1] == u[|u| - 1];
    TrimNoMargins(s);
    if negative {
      assert s[0] == '-' && s[1..] == u;
    } else {
      assert s == u;
    }
  }

  /** `ip.fp` starts with a digit or the point and ends with one of them. */
  lemma PointNumeralEnds(ip: string, fp: string)
    requires AllDigits(ip) && AllDigits(fp)
    ensures var u := ip + "." + fp;
      u[0] > ' ' && u[0] != '-' && u[0] != '+' && u[|u| - 1] > ' '
  {
    var u := ip + "." + fp;
    if fp != [] { assert u[|u| - 1] == fp[|fp| - 1]; }
    if ip != [] { assert u[0] == ip[0]; }
  }

  /** A signed decimal `ip.fp` parses to its exact value. */
  lemma ParseDecimalPlain(negative: bool, ip: string, fp: string)
    requires AllDigits(ip) && AllDigits(fp) && |ip| + |fp| > 0
    ensures ParseDecimal(Sign(negative) + (ip + "." + fp))
         == Some(Signed(negative, DecimalValue(ip, fp)))
  {
    var u := ip + "." + fp;
    var v := DecimalValue(ip, fp);
    PointNumeralEnds(ip, fp);
    ParseUnsignedPoint(ip, fp);
    ParseDecimalSigned(negative, u, v);
  }

  /** The same for a whole number with no decimal point. */
  lemma ParseDecimalInteger(negative: bool, ip: string)
    requires AllDigits(ip) && |ip| > 0
    ensures ParseDecimal(Sign(negative) + ip) == Some(Signed(negative, DecimalValue(ip, "")))
  {
    assert IsDigit(ip[0]) && IsDigit(ip[|ip| - 1]);
    ParseUnsignedWhole(ip);
    ParseDecimalSigned(negative, ip, DecimalValue(ip, ""));
  }

  // ---------------------------------------------------------------------
  // `parseValor`
  // ---------------------------------------------------------------------

  /** The first clean-up: trim, then delete every quote and every space. */
  function Clean(s: string): (r: string)
    ensures '"' !in r && ' ' !in r
  {
    var r := RemoveChar(RemoveChar(Trim(s), '"'), ' ');
    RemoveCharKeeps(RemoveChar(Trim(s), '"'), ' ', '"');
    r
  }

  /** The string rewriting of `parseValor`. With both separators present
      the text is read as Brazilian `1.234,56` (points are thousands
      separators, the comma is the decimal mark); with only commas, each
      comma is a decimal mark; otherwise the text is kept. Either way no
      quote, space or comma is left. */
  function Normalise(s: string): (r: string)
    ensures '"' !in r && ' ' !in r && ',' !in r
  {
    var c := Clean(s);
    if '.' in c && ',' in c then
      var d := RemoveChar(c, '.');
      RemoveCharKeeps(c, '.', '"');
      RemoveCharKeeps(c, '.', ' ');
      ReplaceCharKeeps(d, ',', '.', '"');
      ReplaceCharKeeps(d, ',', '.', ' ');
      ReplaceChar(d, ',', '.')
    else if ',' in c then
      ReplaceCharKeeps(c, ',', '.', '"');
      ReplaceCharKeeps(c, ',', '.', ' ');
      ReplaceChar(c, ',', '.')
    else c
  }

  /** On text `Clean` leaves alone, both separators: every point is
      removed, then every comma becomes a point. */
  lemma NormaliseBoth(s: string)
    requires Clean(s) == s && '.' in s && ',' in s
    ensures Normalise(s) == ReplaceChar(RemoveChar(s, '.'), ',', '.')
  {
  }

  /** On text `Clean` leaves alone, only commas: each becomes a point. */
  lemma NormaliseCommaOnly(s: string)
    requires Clean(s) == s && '.' !in s && ',' in s
    ensures Normalise(s) == ReplaceChar(s, ',', '.')
  {
  }

  /** On text `Clean` leaves alone, no comma: nothing changes. */
  lemma NormaliseNoComma(s: string)
    requires Clean(s) == s && ',' !in s
    ensures Normalise(s) == s
  {
  }

  /** `parseValor`: an empty string, or text that does not denote a
      number once normalised, is worth 0. */
  function ParseValor(s: string): real
  {
    if s == [] then 0.0
    else match ParseDecimal(Normalise(s))
      case Some(v) => v
      case None => 0.0
  }

  /** Characters that may appear in a numeral. */
  predicate NumeralChars(s: string) {
    forall i :: 0 <= i < |s| ==> s[i] in "+-0123456789.,"
  }

  lemma NumeralTrimmed(s: string)
    requires s != [] && NumeralChars(s)
    ensures Trim(s) == s
  {
    assert s[0] in "+-0123456789.,";
    assert s[|s| - 1] in "+-0123456789.,";
    TrimNoMargins(s);
  }

  lemma NumeralNoBlanks(s: string)
    requires NumeralChars(s)
    ensures '"' !in s && ' ' !in s
  {
  }

  lemma CleanUnchanged(s: string)
    requires '"' !in s && ' ' !in s && Trim(s) == s
    ensures Clean(s) == s
  {
  }

  /** Numerals are not touched by `Clean`. */
  lemma CleanNumeral(s: string)
    requires s != [] && NumeralChars(s)
    ensures Clean(s) == s
  {
    NumeralTrimmed(s);
    NumeralNoBlanks(s);
    CleanUnchanged(s);
  }

  predicate IsGrouped(s: string) {
    forall i :: 0 <= i < |s| ==> IsDigit(s[i]) || s[i] == '.'
  }

  lemma {:induction false} RemovePointsFromGrouped(s: string)
    requires IsGrouped(s)
    ensures AllDigits(RemoveChar(s, '.'))
    decreases |s|
  {
    if s != [] {
      RemovePointsFromGrouped(s[1..]);
    }
  }

  /** The four pieces of a numeral `sign int mark frac`. */
  lemma NumeralPieces(sg: string, ip: string, mark: char, fp: string)
    requires sg == "" || sg == "-"
    requires IsGrouped(ip) && AllDigits(fp) && mark in ".,"
    ensures NumeralChars(sg + ip + [mark] + fp)
    ensures mark in sg + ip + [mark] + fp
  {
    var s := sg + ip + [mark] + fp;
    forall i | 0 <= i < |s| ensures s[i] in "+-0123456789.," {
      if i < |sg| {
        assert s[i] == sg[i];
      } else if i < |sg| + |ip| {
        assert s[i] == ip[i - |sg|];
      } else if i > |sg| + |ip| {
        assert s[i] == fp[i - |sg| - |ip| - 1];
      }
    }
    assert s[|sg| + |ip|] == mark;
  }

  /** A character absent from the pieces and other than the mark is
      absent from the numeral. */
  lemma NumeralLacks(sg: string, ip: string, mark: char, fp: string, x: char)
    requires x != mark && x !in sg && x !in ip && x !in fp
    ensures x !in sg + ip + [mark] + fp
  {
    var s := sg + ip + [mark] + fp;
    forall i | 0 <= i < |s| ensures s[i] != x {
      if i < |sg| {
        assert s[i] == sg[i];
      } else if i < |sg| + |ip| {
        assert s[i] == ip[i - |sg|];
      } else if i > |sg| + |ip| {
        assert s[i] == fp[i - |sg| - |ip| - 1];
      }
    }
  }

  /** Dropping the points of a numeral `sg g,fp` whose sign and fraction
      have none. */
  lemma RemovePointsInNumeral(sg: string, g: string, fp: string)
    requires '.' !in sg && '.' !in fp
    ensures RemoveChar(sg + g + "," + fp, '.') == sg + RemoveChar(g, '.') + "," + fp
  {
    RemoveCharAppend(sg + g + ",", fp, '.');
    RemoveCharAppend(sg + g, ",", '.');
    RemoveCharAppend(sg, g, '.');
  }

  /** Turning the one comma of a numeral `sg ip,fp` into a point. */
  lemma ReplaceCommaInNumeral(sg: string, ip: string, fp: string)
    requires ',' !in sg && ',' !in ip && ',' !in fp
    ensures ReplaceChar(sg + ip + "," + fp, ',', '.') == sg + (ip + "." + fp)
  {
    ReplaceCharAppend(sg + ip + ",", fp, ',', '.');
    ReplaceCharAppend(sg + ip, ",", ',', '.');
    ReplaceCharAppend(sg, ip, ',', '.');
    ReplaceCharAbsent(sg, ',', '.');
    ReplaceCharAbsent(ip, ',', '.');
    ReplaceCharAbsent(fp, ',', '.');
    Regroup(sg, ip, ".", fp);
  }

  lemma InMiddle(a: string, b: string, m: char, c: string, x: char)
    requires x in b
    ensures x in a + b + [m] + c
  {
    var k :| 0 <= k < |b| && b[k] == x;
    assert (a + b + [m] + c)[|a| + k] == b[k];
  }

  /** The rewriting of a Brazilian numeral: points dropped, comma to point. */
  lemma NormaliseBrazilian(sg: string, g: string, fp: string)
    requires sg == "" || sg == "-"
    requires IsGrouped(g) && '.' in g && AllDigits(fp)
    ensures Normalise(sg + g + "," + fp) == sg + (RemoveChar(g, '.') + "." + fp)
  {
    var s := sg + g + "," + fp;
    var ip := RemoveChar(g, '.');
    assert Clean(s) == s && '.' in s && ',' in s by {
      NumeralPieces(sg, g, ',', fp);
      CleanNumeral(s);
      InMiddle(sg, g, ',', fp, '.');
    }
    NormaliseBoth(s);
    assert RemoveChar(s, '.') == sg + ip + "," + fp by {
      DigitsHaveNo(fp, '.');
      RemovePointsInNumeral(sg, g, fp);
    }
    assert ReplaceChar(sg + ip + "," + fp, ',', '.') == sg + (ip + "." + fp) by {
      RemovePointsFromGrouped(g);
      DigitsHaveNo(ip, ',');
      DigitsHaveNo(fp, ',');
      ReplaceCommaInNumeral(sg, ip, fp);
    }
  }

  /** The rewriting of a numeral with only a comma: comma to point. */
  lemma NormaliseComma(sg: string, ip: string, fp: string)
    requires sg == "" || sg == "-"
    requires AllDigits(ip) && AllDigits(fp)
    ensures Normalise(sg + ip + "," + fp) == sg + (ip + "." + fp)
  {
    var s := sg + ip + "," + fp;
    NumeralPieces(sg, ip, ',', fp);
    CleanNumeral(s);
    DigitsHaveNo(ip, '.');
    DigitsHaveNo(fp, '.');
    DigitsHaveNo(ip, ',');
    DigitsHaveNo(fp, ',');
    NumeralLacks(sg, ip, ',', fp, '.');
    ReplaceCommaInNumeral(sg, ip, fp);
    NormaliseCommaOnly(s);
  }

  /** A numeral in plain decimal notation is kept as it is. */
  lemma NormalisePlain(sg: string, ip: string, fp: string)
    requires sg == "" || sg == "-"
    requires AllDigits(ip) && AllDigits(fp)
    ensures Normalise(sg + ip + "." + fp) == sg + ip + "." + fp
  {
    var s := sg + ip + "." + fp;
    NumeralPieces(sg, ip, '.', fp);
    CleanNumeral(s);
    DigitsHaveNo(ip, ',');
    DigitsHaveNo(fp, ',');
    assert ',' !in s;
    NormaliseNoComma(s);
  }

  /** A numeral wrapped in quotes, as a quoted CSV field delivers it,
      comes out of `Clean` bare. */
  lemma CleanQuoted(n: string)
    requires n != [] && NumeralChars(n)
    ensures Clean("\"" + n + "\"") == n
  {
    var s := "\"" + n + "\"";
    assert s[0] == '"' && s[|s| - 1] == '"';
    TrimNoMargins(s);
    NumeralNoBlanks(n);
    RemoveCharAppend("\"" + n, "\"", '"');
    RemoveCharAppend("\"", n, '"');
  }

  /** A space inside a numeral (`1 234,56`) is deleted by `Clean`. */
  lemma CleanSpaced(a: string, b: string)
    requires a != [] && b != [] && NumeralChars(a) && NumeralChars(b)
    ensures Clean(a + " " + b) == a + b
  {
    var s := a + " " + b;
    assert a[0] in "+-0123456789.,";
    assert b[|b| - 1] in "+-0123456789.,";
    assert s[0] == a[0] && s[|s| - 1] == b[|b| - 1];
    TrimNoMargins(s);
    NumeralNoBlanks(a);
    NumeralNoBlanks(b);
    RemoveNone(a, ' ', b, '"');
    RemoveOne(a, b, ' ');
  }

  /** `parseValor` sees its argument only through `Clean`. */
  lemma ParseValorClean(s: string, t: string)
    requires s != [] && t != [] && Clean(s) == Clean(t)
    ensures ParseValor(s) == ParseValor(t)
  {
  }

  /** Quotes around an amount do not change its value: `"1.234,56"` is
      worth what `1.234,56` is. */
  lemma ParseValorQuoted(n: string)
    requires n != [] && NumeralChars(n)
    ensures ParseValor("\"" + n + "\"") == ParseValor(n)
  {
    CleanQuoted(n);
    CleanNumeral(n);
    ParseValorClean("\"" + n + "\"", n);
  }

  /** A space inside an amount does not change its value: `1 234,56` is
      worth what `1234,56` is. */
  lemma ParseValorSpaced(a: string, b: string)
    requires a != [] && b != [] && NumeralChars(a) && NumeralChars(b)
    ensures ParseValor(a + " " + b) == ParseValor(a + b)
  {
    CleanSpaced(a, b);
    assert NumeralChars(a + b) by {
      forall i | 0 <= i < |a + b| ensures (a + b)[i] in "+-0123456789.," {
        if i >= |a| { assert (a + b)[i] == b[i - |a|]; }
      }
    }
    CleanNumeral(a + b);
    ParseValorClean(a + " " + b, a + b);
  }

  /** `parseValor` reads what `Normalise` leaves. */
  lemma ParseValorOf(s: string, t: string, v: real)
    requires s != [] && Normalise(s) == t && ParseDecimal(t) == Some(v)
    ensures ParseValor(s) == v
  {
  }

  /** The Brazilian format: `1.234,56` (any grouping of the integer digits
      by points, a comma as decimal mark) is worth `1234.56`. */
  lemma ParseValorBrazilian(negative: bool, grouped: string, fp: string)
    requires IsGrouped(grouped) && '.' in grouped && AllDigits(fp)
    requires |RemoveChar(grouped, '.')| + |fp| > 0
    ensures AllDigits(RemoveChar(grouped, '.'))
    ensures ParseValor(Sign(negative) + grouped + "," + fp)
         == Signed(negative, DecimalValue(RemoveChar(grouped, '.'), fp))
  {
    RemovePointsFromGrouped(grouped);
    var ip := RemoveChar(grouped, '.');
    var s := Sign(negative) + grouped + "," + fp;
    var t := Sign(negative) + (ip + "." + fp);
    NormaliseBrazilian(Sign(negative), grouped, fp);
    ParseDecimalPlain(negative, ip, fp);
    assert s != [] by { assert s[|Sign(negative)| + |grouped|] == ','; }
    ParseValorOf(s, t, Signed(negative, DecimalValue(ip, fp)));
  }

  /** A comma alone is the decimal mark: `1234,56` is worth `1234.56`. */
  lemma ParseValorComma(negative: bool, ip: string, fp: string)
    requires AllDigits(ip) && AllDigits(fp) && |ip| + |fp| > 0
    ensures ParseValor(Sign(negative) + ip + "," + fp) == Signed(negative, DecimalValue(ip, fp))
  {
    var s := Sign(negative) + ip + "," + fp;
    var t := Sign(negative) + (ip + "." + fp);
    NormaliseComma(Sign(negative), ip, fp);
    ParseDecimalPlain(negative, ip, fp);
    assert s != [] by { assert s[|Sign(negative)| + |ip|] == ','; }
    ParseValorOf(s, t, Signed(negative, DecimalValue(ip, fp)));
  }

  /** Plain decimal notation is kept: `1234.56` is worth `1234.56`. */
  lemma ParseValorPlain(negative: bool, ip: string, fp: string)
    requires AllDigits(ip) && AllDigits(fp) && |ip| + |fp| > 0
    ensures ParseValor(Sign(negative) + ip + "." + fp) == Signed(negative, DecimalValue(ip, fp))
  {
    NormalisePlain(Sign(negative), ip, fp);
    ParseDecimalPlain(negative, ip, fp);
    Regroup(Sign(negative), ip, ".", fp);
  }

  /** The letters that `Double.parseDouble` gives a meaning to: exponents,
      type suffixes, `NaN`, `Infinity` and hexadecimal notation. */
  const FloatLetters := "aAbBcCdDeEfFiInNpPtxXy"

  /** Only digits and the point survive `ParseUnsigned`. */
  lemma ParseUnsignedChars(u: string, i: int)
    requires ParseUnsigned(u).Some? && 0 <= i < |u|
    ensures IsDigit(u[i]) || u[i] == '.'
  {
    var p := IndexOf(u, '.');
    if 0 <= p && i != p {
      if i < p {
        assert u[i] == u[..p][i];
      } else {
        assert u[i] == u[p + 1..][i - p - 1];
      }
    }
  }

  /** Text holding a character (above the blank) that is neither a digit,
      a sign, a point nor a letter of Java's floating-point syntax has no
      value. */
  lemma ParseDecimalRejects(s: string, x: char)
    requires x in s && x > ' ' && !IsDigit(x) && x !in "+-." && x !in FloatLetters
    ensures ParseDecimal(s) == None
  {
    TrimKeeps(s, x);
    var t := Trim(s);
    var k :| 0 <= k < |t| && t[k] == x;
    if ParseDecimal(s).Some? {
      if |t| > 0 && (t[0] == '-' || t[0] == '+') {
        assert k > 0;
        assert t[1..][k - 1] == x;
        ParseUnsignedChars(t[1..], k - 1);
      } else {
        ParseUnsignedChars(t, k);
      }
    }
  }

  /** `Normalise` keeps every character it does not rewrite. */
  lemma NormaliseKeeps(s: string, x: char)
    requires x in s && x > ' ' && x !in "\",."
    ensures x in Normalise(s)
  {
    TrimKeeps(s, x);
    RemoveCharKeeps(Trim(s), '"', x);
    RemoveCharKeeps(RemoveChar(Trim(s), '"'), ' ', x);
    var c := Clean(s);
    RemoveCharKeeps(c, '.', x);
    ReplaceCharKeeps(RemoveChar(c, '.'), ',', '.', x);
    ReplaceCharKeeps(c, ',', '.', x);
  }

  /** Text holding any character other than blanks, digits, signs, points,
      commas, quotes and the letters of Java's floating-point syntax (a
      slash, `R`, `$`) is worth 0: `"n/d"` and `R$ 1.234,56` are 0. */
  lemma ParseValorRejects(s: string, x: char)
    requires x in s && x > ' ' && !IsDigit(x) && x !in "+-.,\"" && x !in FloatLetters
    ensures ParseValor(s) == 0.0
  {
    NormaliseKeeps(s, x);
    ParseDecimalRejects(Normalise(s), x);
  }

  // ---------------------------------------------------------------------
  // `%.2f`
  // ---------------------------------------------------------------------

  /** `Math.abs`. */
  function Abs(x: real): (a: real)
    ensures a >= 0.0 && (a == x || a == -x)
  {
    if x < 0.0 then -x else x
  }

  /** Rounds half up to a whole number. */
  function RoundHalfUp(x: real): (n: nat)
    requires x >= 0.0
    ensures n as real - 0.5 <= x < n as real + 0.5
  {
    (x + 0.5).Floor
  }

  /** The two decimals of `n` cents. */
  function CentDigits(n: nat): (fp: string)
    ensures |fp| == 2 && AllDigits(fp)
  {
    [Digit(n % 100 / 10), Digit(n % 10)]
  }

  /** `String.format("%.2f", x)` with `.` as the decimal mark: the sign of a
      negative value, the whole part, and two rounded decimals. */
  function FormatAmount(x: real): string
  {
    var n := RoundHalfUp(Abs(x) * 100.0);
    Sign(x < 0.0) + NatToString(n / 100) + "." + CentDigits(n)
  }

  lemma TwoDigitsValue(a: nat, b: nat)
    requires a < 10 && b < 10
    ensures FractionValue([Digit(a), Digit(b)]) == (10 * a + b) as real / 100.0
  {
    var fp := [Digit(a), Digit(b)];
    assert fp[1..] == [Digit(b)];
    assert [Digit(b)][1..] == [];
    assert FractionValue([Digit(b)]) == b as real / 10.0;
  }

  /** `n` cents written as whole part and two decimals denote `n / 100`. */
  lemma CentsValue(n: nat)
    ensures DecimalValue(NatToString(n / 100), CentDigits(n)) == n as real / 100.0
  {
    var q, c := n / 100, n % 100;
    LastDigit(n);
    TwoDigitsValue(c / 10, c % 10);
    assert FractionValue(CentDigits(n)) == c as real / 100.0;
    CentsSplit(n, q, c);
  }

  lemma LastDigit(n: nat)
    ensures n % 10 == n % 100 % 10 && 10 * (n % 100 / 10) + n % 100 % 10 == n % 100
  {
    var q, c := n / 100, n % 100;
    assert n == 10 * (10 * q + c / 10) + c % 10;
  }

  lemma CentsSplit(n: nat, q: nat, c: nat)
    requires q == n / 100 && c == n % 100
    ensures q as real + c as real / 100.0 == n as real / 100.0
  {
    assert n == 100 * q + c;
  }

  /** The rendering of `n` cents, with or without a minus sign, parses back
      to `n / 100` with that sign. */
  lemma RenderedCents(negative: bool, n: nat)
    ensures ParseDecimal(Sign(negative) + NatToString(n / 100) + "." + CentDigits(n))
         == Some(Signed(negative, n as real / 100.0))
  {
    var ip := NatToString(n / 100);
    var fp := CentDigits(n);
    ParseDecimalPlain(negative, ip, fp);
    Regroup(Sign(negative), ip, ".", fp);
    CentsValue(n);
  }

  /** The text `%.2f` writes: an optional minus sign, a whole part of at
      least one digit without leading zeros, the mark `.`, and exactly two
      decimals. */
  lemma FormatAmountShape(x: real)
    ensures exists w, f ::
      (FormatAmount(x) == Sign(x < 0.0) + w + "." + f &&
       |w| >= 1 && AllDigits(w) && (w[0] == '0' ==> |w| == 1) &&
       |f| == 2 && AllDigits(f))
  {
    var n := RoundHalfUp(Abs(x) * 100.0);
    var w, f := NatToString(n / 100), CentDigits(n);
    if w[0] == '0' {
      assert n / 100 == 0;
    }
    assert FormatAmount(x) == Sign(x < 0.0) + w + "." + f;
  }

  /** What the rendering denotes: `x` rounded half up to cents. */
  lemma FormatAmountValue(x: real)
    ensures ParseDecimal(FormatAmount(x))
         == Some(Signed(x < 0.0, RoundHalfUp(Abs(x) * 100.0) as real / 100.0))
  {
    var n := RoundHalfUp(Abs(x) * 100.0);
    assert FormatAmount(x) == Sign(x < 0.0) + NatToString(n / 100) + "." + CentDigits(n);
    RenderedCents(x < 0.0, n);
  }

  /** Rendering loses at most half a cent. */
  lemma FormatAmountError(x: real)
    ensures ParseDecimal(FormatAmount(x)).Some?
    ensures Abs(ParseDecimal(FormatAmount(x)).value - x) <= 0.005
  {
    FormatAmountValue(x);
  }

  lemma RoundWhole(a: nat)
    ensures RoundHalfUp(a as real) == a
  {
  }

  lemma SignedCents(x: real, a: nat)
    requires Abs(x) * 100.0 == a as real
    ensures Signed(x < 0.0, a as real / 100.0) == x
  {
  }

  /** An amount that is a whole number of cents is rendered exactly. */
  lemma FormatAmountCents(x: real, a: nat)
    requires Abs(x) * 100.0 == a as real
    ensures ParseDecimal(FormatAmount(x)) == Some(x)
  {
    SignedCents(x, a);
    RoundWhole(a);
    assert RoundHalfUp(Abs(x) * 100.0) == a;
    FormatAmountValue(x);
  }
}
