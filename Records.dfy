/** Records: the expense record (`RegistroDespesa`), the keyword filter
    applied to each input line, the extraction of a record from a line,
    the quarter and year taken from the file name, and the rendering of a
    record as a line of the consolidated CSV. */
module Records {
  import opened Wrappers
  import opened Text
  import opened Amounts

  /** One expense line of an accounting statement. */
  datatype Record = Record(
    date: string,
    regAns: string,
    accountCode: string,
    description: string,
    quarter: string,
    year: string,
    amount: real)

  // ---------------------------------------------------------------------
  // Keyword filter (`contemDespesaComEventos`)
  // ---------------------------------------------------------------------

  /** The lower-case keywords that mark a line as an expense with events or
      claims. */
  const Keywords: seq<string> := ["sinistros", "despesas com eventos", "eventos/sinistros"]

  /** Some keyword of `ks` occurs in `s`. */
  function AnyKeyword(s: string, ks: seq<string>): (r: bool)
    ensures r <==> exists k :: 0 <= k < |ks| && Contains(s, ks[k])
  {
    if ks == [] then false
    else if Contains(s, ks[0]) then true
    else
      var r := AnyKeyword(s, ks[1..]);
      assert forall k :: 1 <= k < |ks| ==> ks[k] == ks[1..][k - 1];
      r
  }

  /** `contemDespesaComEventos`: the lower-cased line contains a keyword. */
  function HasExpenseKeyword(line: string): (r: bool)
    ensures r <==> exists k :: 0 <= k < |Keywords| && Contains(Lower(line), Keywords[k])
  {
    AnyKeyword(Lower(line), Keywords)
  }

  /** The filter accepts a line exactly when its lower-cased text contains
      one of the three keywords. */
  lemma HasExpenseKeywordIff(line: string)
    ensures HasExpenseKeyword(line) <==>
      Contains(Lower(line), "sinistros") ||
      Contains(Lower(line), "despesas com eventos") ||
      Contains(Lower(line), "eventos/sinistros")
  {
    assert Keywords[0] == "sinistros";
    assert Keywords[1] == "despesas com eventos";
    assert Keywords[2] == "eventos/sinistros";
  }

  lemma SinistrosInThird()
    ensures OccursAt("eventos/sinistros", "sinistros", 8)
  {
  }

  /** "eventos/sinistros" ends in "sinistros", so the third keyword never
      decides anything: the filter is the same with the first two alone. */
  lemma ThirdKeywordSubsumed(line: string)
    ensures HasExpenseKeyword(line) <==>
      Contains(Lower(line), "sinistros") || Contains(Lower(line), "despesas com eventos")
  {
    HasExpenseKeywordIff(line);
    if Contains(Lower(line), "eventos/sinistros") {
      SinistrosInThird();
      ContainsTransitive(Lower(line), "eventos/sinistros", "sinistros", 8);
    }
  }

  /** The filter does not depend on letter case. */
  lemma HasExpenseKeywordCase(line: string)
    ensures HasExpenseKeyword(Upper(line)) == HasExpenseKeyword(line)
  {
    LowerOfUpper(line);
  }

  // ---------------------------------------------------------------------
  // Record extraction (`extrairRegistro`)
  // ---------------------------------------------------------------------

  /** The field separator of a line: `;` when the line has one, else `,`. */
  function Delimiter(line: string): (d: char)
    ensures d == ';' || d == ','
    ensures d == ';' <==> ';' in line
  {
    if ';' in line then ';' else ','
  }

  /** `extrairRegistro`: split on the line's separator; fewer than six
      fields give no record; otherwise fields 0, 1, 2, 3 and 5, trimmed,
      are the date, operator registration, account code, description and
      amount (read by `parseValor`). Field 4 is ignored; quarter and year
      come from the file name. */
  function ExtractRecord(line: string, quarter: string, year: string): (r: Option<Record>)
    ensures r.Some? ==> r.value.quarter == quarter && r.value.year == year
  {
    var parts := JavaSplit(line, Delimiter(line));
    if |parts| < 6 then None
    else Some(Record(
      Trim(parts[0]), Trim(parts[1]), Trim(parts[2]), Trim(parts[3]),
      quarter, year, ParseValor(Trim(parts[5]))))
  }

  /** A record is extracted exactly when, in the raw split of the line on
      its separator, some field from the sixth on is non-empty (Java's
      `split` drops trailing empty fields before the length test). */
  lemma ExtractRecordSome(line: string, quarter: string, year: string)
    ensures ExtractRecord(line, quarter, year).Some? <==>
      exists k :: 5 <= k < |SplitAll(line, Delimiter(line))| &&
        SplitAll(line, Delimiter(line))[k] != ""
  {
    JavaSplitLength(line, Delimiter(line), 6);
  }

  /** Joining fields with `;`, or with `,` when no field holds a `;`, where
      some field `j` from the sixth on is non-empty (trailing empty fields
      are allowed), and extracting gives back the trimmed fields 0, 1, 2, 3
      and the amount of field 5, with the quarter and year passed through. */
  lemma ExtractRecordFields(fs: seq<string>, d: char, j: int, quarter: string, year: string)
    requires 5 <= j < |fs| && fs[j] != ""
    requires forall k :: 0 <= k < |fs| ==> d !in fs[k]
    requires d == ';' || (d == ',' && forall k :: 0 <= k < |fs| ==> ';' !in fs[k])
    ensures ExtractRecord(Join(fs, d), quarter, year) == Some(Record(
      Trim(fs[0]), Trim(fs[1]), Trim(fs[2]), Trim(fs[3]),
      quarter, year, ParseValor(Trim(fs[5]))))
  {
    var line := Join(fs, d);
    assert line == fs[0] + [d] + Join(fs[1..], d);
    assert line[|fs[0]|] == d;
    if d == ',' {
      JoinLacks(fs, d, ';');
    }
    assert Delimiter(line) == d;
    SplitJoin(fs, d);
    assert |DropTrailingEmpty(fs)| > j;
  }

  /** A `;`-separated line whose fields from the sixth on are all empty
      (`a;b;c;d;e;`) gives no record, however many separators it ends with. */
  lemma ExtractRecordTrailingEmpty(fs: seq<string>, quarter: string, year: string)
    requires |fs| >= 2
    requires forall k :: 0 <= k < |fs| ==> ';' !in fs[k]
    requires forall k :: 5 <= k < |fs| ==> fs[k] == ""
    ensures ExtractRecord(Join(fs, ';'), quarter, year) == None
  {
    var line := Join(fs, ';');
    SplitJoin(fs, ';');
    assert line == fs[0] + [';'] + Join(fs[1..], ';');
    assert line[|fs[0]|] == ';';
    assert Delimiter(line) == ';';
    ExtractRecordSome(line, quarter, year);
  }

  // ---------------------------------------------------------------------
  // Quarter and year from the file name (`extrairTrimestre`, `extrairAno`)
  // ---------------------------------------------------------------------

  /** `extrairTrimestre`: the first two characters upper-cased, or `1T`. */
  function ExtractQuarter(name: string): (q: string)
    ensures |q| == 2
  {
    if |name| >= 2 then Upper(name[..2]) else "1T"
  }

  /** `extrairAno`: characters 2 to 5, or `2025`. */
  function ExtractYear(name: string): (y: string)
    ensures |y| == 4
  {
    if |name| >= 6 then name[2..6] else "2025"
  }

  /** A name that starts with an upper-case quarter tag and a four-character
      year (`1T2024.csv`) yields exactly that quarter and year. */
  lemma FileNameMetadata(q: string, y: string, rest: string)
    requires |q| == 2 && |y| == 4 && Upper(q) == q
    ensures ExtractQuarter(q + y + rest) == q
    ensures ExtractYear(q + y + rest) == y
  {
    var name := q + y + rest;
    assert name[..2] == q;
    assert name[2..6] == y;
  }

  /** The quarter does not depend on the case of the name: `1t2024.csv`
      and `1T2024.csv` give the same quarter. */
  lemma ExtractQuarterCase(name: string)
    ensures ExtractQuarter(Lower(name)) == ExtractQuarter(name)
  {
    if |name| >= 2 {
      assert Lower(name)[..2] == Lower(name[..2]);
      UpperOfLower(name[..2]);
    }
  }

  // ---------------------------------------------------------------------
  // CSV rendering (`escaparCSV`, `toCSVLine`)
  // ---------------------------------------------------------------------

  /** `v.replace("\"", "\"\"")`: every quote doubled. */
  function DoubleQuotes(v: string): (r: string)
    ensures '"' !in v ==> r == v
    ensures |r| >= |v|
  {
    if v == [] then []
    else
      var t := DoubleQuotes(v[1..]);
      assert v == [v[0]] + v[1..];
      (if v[0] == '"' then "\"\"" else [v[0]]) + t
  }

  /** The characters that make `escaparCSV` quote a value. */
  predicate NeedsQuoting(v: string) {
    ';' in v || '"' in v || '\n' in v
  }

  /** `escaparCSV`: a value with a `;`, a quote or a line break is wrapped
      in quotes with its quotes doubled; any other value is left alone. */
  function Escape(v: string): (r: string)
    ensures !NeedsQuoting(v) ==> r == v
    ensures NeedsQuoting(v) ==> |r| >= |v| + 2 && r[0] == '"' && r[|r| - 1] == '"'
  {
    if NeedsQuoting(v) then "\"" + DoubleQuotes(v) + "\"" else v
  }

  /** `toCSVLine`: the seven columns separated by `;`; only the description
      is escaped, and the amount is written with two decimals. */
  function CsvLine(r: Record): string
  {
    Join([r.date, r.regAns, r.accountCode, Escape(r.description),
          r.quarter, r.year, FormatAmount(r.amount)], ';')
  }

  // ---------------------------------------------------------------------
  // Reading a CSV line back
  // ---------------------------------------------------------------------

  /** A reader for `;`-separated lines with quoted fields (`""` inside
      quotes is one quote): `inQuotes` says whether the reader is inside a
      quoted section, `cur` holds the field read so far. */
  function Fields(s: string, inQuotes: bool, cur: string): (r: seq<string>)
    ensures |r| >= 1
    decreases |s|
  {
    if s == [] then [cur]
    else if inQuotes then
      if s[0] == '"' then
        if |s| >= 2 && s[1] == '"' then Fields(s[2..], true, cur + ['"'])
        else Fields(s[1..], false, cur)
      else Fields(s[1..], true, cur + [s[0]])
    else if s[0] == ';' then [cur] + Fields(s[1..], false, [])
    else if s[0] == '"' then Fields(s[1..], true, cur)
    else Fields(s[1..], false, cur + [s[0]])
  }

  /** The fields of a CSV line. */
  function ReadFields(line: string): seq<string>
  {
    Fields(line, false, [])
  }

  /** Outside quotes, text without separators and quotes is copied. */
  lemma {:induction false} FieldsPlain(v: string, rest: string, cur: string)
    requires ';' !in v && '"' !in v
    ensures Fields(v + rest, false, cur) == Fields(rest, false, cur + v)
    decreases |v|
  {
    if v != [] {
      assert (v + rest)[1..] == v[1..] + rest;
      FieldsPlain(v[1..], rest, cur + [v[0]]);
      assert cur + [v[0]] + v[1..] == cur + v;
    } else {
      assert v + rest == rest;
      assert cur + v == cur;
    }
  }

  /** Inside quotes, `""` is one quote. */
  lemma FieldsDoubledQuote(t: string, cur: string)
    ensures Fields("\"\"" + t, true, cur) == Fields(t, true, cur + ['"'])
  {
    assert ("\"\"" + t)[2..] == t;
  }

  /** Inside quotes, any other character is copied. */
  lemma FieldsQuotedChar(c: char, t: string, cur: string)
    requires c != '"'
    ensures Fields([c] + t, true, cur) == Fields(t, true, cur + [c])
  {
    assert ([c] + t)[1..] == t;
  }

  /** Outside quotes, a quote opens a quoted section. */
  lemma FieldsOpen(t: string, cur: string)
    ensures Fields("\"" + t, false, cur) == Fields(t, true, cur)
  {
    assert ("\"" + t)[1..] == t;
  }

  /** A quote not followed by another one closes the quoted section. */
  lemma FieldsClose(rest: string, cur: string)
    requires rest == [] || rest[0] != '"'
    ensures Fields("\"" + rest, true, cur) == Fields(rest, false, cur)
  {
    assert ("\"" + rest)[1..] == rest;
  }

  /** The first step of `DoubleQuotes`, regrouped before the suffix `rest`. */
  lemma DoubleQuotesStep(v: string, rest: string)
    requires v != []
    ensures DoubleQuotes(v) + "\"" + rest
         == (if v[0] == '"' then "\"\"" else [v[0]]) + (DoubleQuotes(v[1..]) + "\"" + rest)
  {
    var x := if v[0] == '"' then "\"\"" else [v[0]];
    assert DoubleQuotes(v) == x + DoubleQuotes(v[1..]);
    Regroup(x, DoubleQuotes(v[1..]), "\"", rest);
  }

  /** Inside quotes, a value with doubled quotes followed by the closing
      quote is read back as the value. */
  lemma {:induction false} FieldsQuoted(v: string, rest: string, cur: string)
    requires rest == [] || rest[0] != '"'
    ensures Fields(DoubleQuotes(v) + "\"" + rest, true, cur) == Fields(rest, false, cur + v)
    decreases |v|
  {
    if v == [] {
      assert DoubleQuotes(v) + "\"" + rest == "\"" + rest;
      FieldsClose(rest, cur);
      assert cur + v == cur;
    } else {
      var tail := DoubleQuotes(v[1..]) + "\"" + rest;
      FieldsQuoted(v[1..], rest, cur + [v[0]]);
      assert cur + [v[0]] + v[1..] == cur + v;
      DoubleQuotesStep(v, rest);
      if v[0] == '"' {
        FieldsDoubledQuote(tail, cur);
      } else {
        FieldsQuotedChar(v[0], tail, cur);
      }
    }
  }

  /** An escaped value, followed by nothing or by a separator, is read back
      as the value. */
  lemma EscapeRead(v: string, rest: string)
    requires rest == [] || rest[0] == ';'
    ensures Fields(Escape(v) + rest, false, []) == Fields(rest, false, v)
  {
    if NeedsQuoting(v) {
      Regroup("\"", DoubleQuotes(v), "\"", rest);
      FieldsOpen(DoubleQuotes(v) + "\"" + rest, []);
      FieldsQuoted(v, rest, []);
      assert [] + v == v;
    } else {
      FieldsPlain(v, rest, []);
      assert [] + v == v;
    }
  }

  /** Unescaping: reading an escaped value gives back exactly that value. */
  lemma EscapeRoundTrip(v: string)
    ensures ReadFields(Escape(v)) == [v]
  {
    EscapeRead(v, []);
    assert Escape(v) + [] == Escape(v);
  }

  /** `f` is how the line writer renders `v`: raw (no separator, no quote)
      or escaped. */
  predicate Renders(f: string, v: string) {
    (f == v && ';' !in v && '"' !in v) || f == Escape(v)
  }

  lemma RenderedRead(f: string, v: string, rest: string)
    requires Renders(f, v)
    requires rest == [] || rest[0] == ';'
    ensures Fields(f + rest, false, []) == Fields(rest, false, v)
  {
    if f == Escape(v) {
      EscapeRead(v, rest);
    } else {
      FieldsPlain(v, rest, []);
      assert [] + v == v;
    }
  }

  /** Reading a `;`-join of rendered values gives back the values. */
  lemma {:induction false} ReadJoin(fs: seq<string>, vs: seq<string>)
    requires |fs| == |vs| >= 1
    requires forall k :: 0 <= k < |fs| ==> Renders(fs[k], vs[k])
    ensures ReadFields(Join(fs, ';')) == vs
    decreases |fs|
  {
    if |fs| == 1 {
      RenderedRead(fs[0], vs[0], []);
      assert fs[0] + [] == fs[0];
    } else {
      var j := Join(fs[1..], ';');
      assert Join(fs, ';') == fs[0] + ([';'] + j);
      RenderedRead(fs[0], vs[0], [';'] + j);
      assert ([';'] + j)[1..] == j;
      ReadJoin(fs[1..], vs[1..]);
      assert [vs[0]] + vs[1..] == vs;
    }
  }

  /** The rendering of an amount is a sign, digits and a point. */
  lemma FormatAmountPlain(x: real)
    ensures ';' !in FormatAmount(x) && '"' !in FormatAmount(x)
  {
    var n := RoundHalfUp(Abs(x) * 100.0);
    var ip := NatToString(n / 100);
    var fp := CentDigits(n);
    DigitsHaveNo(ip, ';');
    DigitsHaveNo(ip, '"');
    DigitsHaveNo(fp, ';');
    DigitsHaveNo(fp, '"');
  }

  /** Each column of a CSV line renders its value. */
  lemma ColumnsRender(r: Record, fs: seq<string>, vs: seq<string>)
    requires ';' !in r.date && '"' !in r.date
    requires ';' !in r.regAns && '"' !in r.regAns
    requires ';' !in r.accountCode && '"' !in r.accountCode
    requires ';' !in r.quarter && '"' !in r.quarter
    requires ';' !in r.year && '"' !in r.year
    requires fs == [r.date, r.regAns, r.accountCode, Escape(r.description),
                    r.quarter, r.year, FormatAmount(r.amount)]
    requires vs == [r.date, r.regAns, r.accountCode, r.description,
                    r.quarter, r.year, FormatAmount(r.amount)]
    ensures |fs| == |vs| && forall k :: 0 <= k < |fs| ==> Renders(fs[k], vs[k])
  {
    forall k | 0 <= k < |fs| ensures Renders(fs[k], vs[k]) {
      if k == 3 {
        assert fs[k] == Escape(vs[k]);
      } else {
        if k == 6 {
          FormatAmountPlain(r.amount);
        }
        assert fs[k] == vs[k] && ';' !in vs[k] && '"' !in vs[k];
      }
    }
  }

  /** Reading a consolidated CSV line gives back the seven columns: the
      description exactly as stored, whatever it contains, and the amount
      as its two-decimal rendering, provided the columns written raw hold
      no `;` and no quote. */
  lemma CsvLineRoundTrip(r: Record)
    requires ';' !in r.date && '"' !in r.date
    requires ';' !in r.regAns && '"' !in r.regAns
    requires ';' !in r.accountCode && '"' !in r.accountCode
    requires ';' !in r.quarter && '"' !in r.quarter
    requires ';' !in r.year && '"' !in r.year
    ensures ReadFields(CsvLine(r)) ==
      [r.date, r.regAns, r.accountCode, r.description, r.quarter, r.year, FormatAmount(r.amount)]
  {
    var fs := [r.date, r.regAns, r.accountCode, Escape(r.description),
               r.quarter, r.year, FormatAmount(r.amount)];
    var vs := [r.date, r.regAns, r.accountCode, r.description,
               r.quarter, r.year, FormatAmount(r.amount)];
    ColumnsRender(r, fs, vs);
    ReadJoin(fs, vs);
  }
}
