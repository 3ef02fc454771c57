/** Pipeline: the processor's state and its loops. `Etl` holds the state
    `Main` keeps in static fields (the consolidated store, its insertion
    order and the statistics counters); `ProcessFile` is the line loop of
    `processarArquivo` and `WriteConsolidated` the sort and rendering of
    `gerarCSVConsolidado`. A file is given as its sequence of lines and
    the output as the sequence of lines written. */
module Pipeline {
  import opened Wrappers
  import opened Text
  import opened Amounts
  import opened Records
  import opened Consolidation
  import opened Ordering

  /** The first line of the consolidated CSV. */
  const Header := "DATA;REG_ANS;CD_CONTA_CONTABIL;DESCRICAO;Trimestre;Ano;ValorDespesas"

  // ---------------------------------------------------------------------
  // What a file contributes
  // ---------------------------------------------------------------------

  /** The records a data line yields: none unless it mentions an expense
      keyword and a record can be extracted from it. */
  function LineYield(line: string, quarter: string, year: string): (rs: seq<Record>)
    ensures |rs| <= 1
  {
    if !HasExpenseKeyword(line) then []
    else match ExtractRecord(line, quarter, year)
      case None => []
      case Some(r) => [r]
  }

  /** `line` mentions an expense keyword and `r` is the record extracted
      from it. */
  predicate Yields(line: string, quarter: string, year: string, r: Record) {
    HasExpenseKeyword(line) && ExtractRecord(line, quarter, year) == Some(r)
  }

  /** A line yields `r` exactly when it mentions a keyword and `r` is the
      record extracted from it; `r` then carries the given quarter and year. */
  lemma LineYieldMeans(line: string, quarter: string, year: string, r: Record)
    ensures r in LineYield(line, quarter, year) <==> Yields(line, quarter, year, r)
    ensures r in LineYield(line, quarter, year) ==> r.quarter == quarter && r.year == year
  {
  }

  /** What each line of a file yields, with the quarter and year of the file. */
  function Yielder(quarter: string, year: string): string -> seq<Record> {
    line => LineYield(line, quarter, year)
  }

  /** The records of a run of lines, each line yielding what `step` gives it,
      in line order. */
  function Collect(lines: seq<string>, step: string -> seq<Record>): seq<Record>
    decreases |lines|
  {
    if lines == [] then []
    else Collect(lines[..|lines| - 1], step) + step(lines[|lines| - 1])
  }

  /** The records of the lines of a file after its first line, the
      header, each line yielding what `step` gives it. */
  function FileData(lines: seq<string>, step: string -> seq<Record>): seq<Record> {
    if lines == [] then [] else Collect(lines[1..], step)
  }

  /** The records of a whole file: the first line is a header and is
      skipped; quarter and year come from the file name. */
  function FileRecords(name: string, lines: seq<string>): seq<Record> {
    FileData(lines, Yielder(ExtractQuarter(name), ExtractYear(name)))
  }

  /** `step` gives every line what `LineYield` gives it with this quarter
      and year. */
  ghost predicate Agrees(step: string -> seq<Record>, quarter: string, year: string) {
    forall line {:trigger LineYield(line, quarter, year)} :: step(line) == LineYield(line, quarter, year)
  }

  /** Every collected record was yielded by one of the lines. */
  lemma {:induction false} CollectFrom(lines: seq<string>, step: string -> seq<Record>, r: Record)
    requires r in Collect(lines, step)
    ensures exists i :: 0 <= i < |lines| && r in step(lines[i])
    decreases |lines|
  {
    var init := lines[..|lines| - 1];
    if r in Collect(init, step) {
      CollectFrom(init, step, r);
      var i :| 0 <= i < |init| && r in step(init[i]);
      assert lines[i] == init[i];
    } else {
      assert r in step(lines[|lines| - 1]);
    }
  }

  /** Conversely, whatever a line yields is collected. */
  lemma {:induction false} CollectComplete(lines: seq<string>, step: string -> seq<Record>, i: int, r: Record)
    requires 0 <= i < |lines| && r in step(lines[i])
    ensures r in Collect(lines, step)
    decreases |lines|
  {
    var init := lines[..|lines| - 1];
    if i < |lines| - 1 {
      assert lines[i] == init[i];
      CollectComplete(init, step, i, r);
    }
  }

  /** Lines that step at most one record each give at most one record per
      line. */
  lemma {:induction false} CollectLength(lines: seq<string>, step: string -> seq<Record>)
    requires forall line :: |step(line)| <= 1
    ensures |Collect(lines, step)| <= |lines|
    decreases |lines|
  {
    if lines != [] {
      CollectLength(lines[..|lines| - 1], step);
    }
  }

  /** A record comes out of a file exactly when some line after the
      header gives it. */
  lemma FileDataMeans(lines: seq<string>, step: string -> seq<Record>, r: Record)
    ensures r in FileData(lines, step) <==> exists i :: 1 <= i < |lines| && r in step(lines[i])
  {
    if r in FileData(lines, step) {
      CollectFrom(lines[1..], step, r);
      var i :| 0 <= i < |lines[1..]| && r in step(lines[1..][i]);
      assert lines[1..][i] == lines[i + 1];
    }
    if exists i :: 1 <= i < |lines| && r in step(lines[i]) {
      var i :| 1 <= i < |lines| && r in step(lines[i]);
      assert lines[1..][i - 1] == lines[i];
      CollectComplete(lines[1..], step, i - 1, r);
    }
  }

  /** A record belongs to a file's output exactly when some line after the
      header mentions a keyword and that record is extracted from it, with
      the quarter and year of the file name. */
  lemma FileRecordsMeans(name: string, lines: seq<string>, r: Record)
    ensures r in FileRecords(name, lines) <==>
      exists i :: 1 <= i < |lines| && Yields(lines[i], ExtractQuarter(name), ExtractYear(name), r)
  {
    var quarter, year := ExtractQuarter(name), ExtractYear(name);
    var step := Yielder(quarter, year);
    FileDataMeans(lines, step, r);
    forall i | 1 <= i < |lines|
      ensures r in step(lines[i]) <==> Yields(lines[i], quarter, year, r)
    {
      LineYieldMeans(lines[i], quarter, year, r);
    }
  }

  /** A file's records all carry the quarter and year of its name, and
      there is at most one per line after the header. */
  lemma FileRecordsShape(name: string, lines: seq<string>)
    ensures forall r :: r in FileRecords(name, lines) ==>
      r.quarter == ExtractQuarter(name) && r.year == ExtractYear(name)
    ensures lines != [] ==> |FileRecords(name, lines)| <= |lines| - 1
  {
    var quarter, year := ExtractQuarter(name), ExtractYear(name);
    forall r | r in FileRecords(name, lines)
      ensures r.quarter == quarter && r.year == year
    {
      CollectFrom(lines[1..], Yielder(quarter, year), r);
      var i :| 0 <= i < |lines[1..]| && r in Yielder(quarter, year)(lines[1..][i]);
      LineYieldMeans(lines[1..][i], quarter, year, r);
    }
    if lines != [] {
      CollectLength(lines[1..], Yielder(quarter, year));
    }
  }

  /** The header line never contributes, whatever it holds. */
  lemma HeaderIgnored(name: string, header: string, rest: seq<string>)
    ensures FileRecords(name, [header] + rest) == FileRecords(name, [""] + rest)
  {
    assert ([header] + rest)[1..] == rest;
    assert ([""] + rest)[1..] == rest;
  }

  /** One more line read: the header adds nothing, any later line adds
      what it yields. */
  lemma FileDataSnoc(lines: seq<string>, n: int, step: string -> seq<Record>)
    requires 0 <= n < |lines|
    ensures FileData(lines[..n + 1], step) ==
      FileData(lines[..n], step) + (if n == 0 then [] else step(lines[n]))
  {
    if n > 0 {
      var data := lines[..n + 1][1..];
      assert data[..|data| - 1] == lines[..n][1..];
      assert data[|data| - 1] == lines[n];
    }
  }

  lemma AppendAssoc<T>(a: seq<T>, b: seq<T>, c: seq<T>)
    ensures a + (b + c) == (a + b) + c
  {
  }

  // ---------------------------------------------------------------------
  // The processor state
  // ---------------------------------------------------------------------

  /** `out` is the CSV text of `rs`: the header, then one line per record. */
  predicate IsCsvOf(rs: seq<Record>, out: seq<string>) {
    |out| == |rs| + 1 && out[0] == Header &&
    forall i :: 0 <= i < |rs| ==> out[i + 1] == CsvLine(rs[i])
  }

  class Etl {
    /** `registrosConsolidados` and its insertion order. */
    var records: map<string, Record>
    var order: seq<string>
    /** `totalLinhasProcessadas`, `linhasComDespesas`,
        `duplicatasEncontradas`, `valoresNegativos`, `valoresZerados`. */
    var totalLines: nat
    var linesWithExpenses: nat
    var duplicates: nat
    var negatives: nat
    var zeros: nat
    /** The records consolidated so far, in order. */
    ghost var consolidated: seq<Record>

    /** The store and the counters as one value. */
    function Snapshot(): Store
      reads this
    {
      Store(records, order, duplicates, zeros, negatives)
    }

    /** The store and the counters are what consolidating `consolidated`
        in order gives. */
    ghost predicate Valid()
      reads this
    {
      Snapshot() == Summary(consolidated)
    }

    /** Every consolidated record was counted as an expense line. */
    ghost predicate Counted()
      reads this
    {
      linesWithExpenses == |consolidated|
    }

    constructor ()
      ensures Valid() && Counted()
      ensures consolidated == [] && totalLines == 0
    {
      records := map[];
      order := [];
      totalLines := 0;
      linesWithExpenses := 0;
      duplicates := 0;
      negatives := 0;
      zeros := 0;
      consolidated := [];
    }

    /** The counters of `consolidarRegistro` for the amount of `r`. */
    method CountAmount(r: Record)
      modifies this
      ensures zeros == old(zeros) + (if r.amount == 0.0 then 1 else 0)
      ensures negatives == old(negatives) + (if r.amount < 0.0 then 1 else 0)
      ensures records == old(records) && order == old(order) && duplicates == old(duplicates)
      ensures consolidated == old(consolidated)
      ensures totalLines == old(totalLines) && linesWithExpenses == old(linesWithExpenses)
    {
      if r.amount == 0.0 {
        zeros := zeros + 1;
      }
      if r.amount < 0.0 {
        negatives := negatives + 1;
      }
    }

    /** The store part of `consolidarRegistro`: a new key is stored and
        appended to the order; an existing key counts a duplicate and its
        record is replaced only by a strictly larger absolute amount. */
    method StoreRecord(r: Record)
      modifies this
      ensures records == Insert(old(records), r)
      ensures order == if Key(r) in old(records) then old(order) else old(order) + [Key(r)]
      ensures duplicates == old(duplicates) + (if Key(r) in old(records) then 1 else 0)
      ensures zeros == old(zeros) && negatives == old(negatives)
      ensures consolidated == old(consolidated)
      ensures totalLines == old(totalLines) && linesWithExpenses == old(linesWithExpenses)
    {
      var k := Key(r);
      if k in records {
        duplicates := duplicates + 1;
        if Abs(r.amount) > Abs(records[k].amount) {
          records := records[k := r];
        }
      } else {
        records := records[k := r];
        order := order + [k];
      }
    }

    /** `consolidarRegistro`: the counters, then the store. */
    method Consolidate(r: Record)
      requires Valid()
      modifies this
      ensures Valid()
      ensures consolidated == old(consolidated) + [r]
      ensures Snapshot() == Step(old(Snapshot()), r)
      ensures totalLines == old(totalLines) && linesWithExpenses == old(linesWithExpenses)
    {
      SummarySnoc(consolidated, r);
      CountAmount(r);
      StoreRecord(r);
      consolidated := consolidated + [r];
    }

    /** One data line of `processarArquivo`: a line that mentions an
        expense keyword and yields a record has that record consolidated
        and is counted as an expense line; any other line changes nothing. */
    method ReadDataLine(line: string, quarter: string, year: string) returns (found: bool)
      requires Valid() && Counted()
      modifies this
      ensures Valid() && Counted()
      ensures consolidated == old(consolidated) + LineYield(line, quarter, year)
      ensures found <==> LineYield(line, quarter, year) != []
      ensures linesWithExpenses == old(linesWithExpenses) + |LineYield(line, quarter, year)|
      ensures totalLines == old(totalLines)
    {
      found := false;
      if HasExpenseKeyword(line) {
        var extracted := ExtractRecord(line, quarter, year);
        if extracted.Some? {
          Consolidate(extracted.value);
          linesWithExpenses := linesWithExpenses + 1;
          found := true;
        }
      }
    }

    /** One line of the loop of `processarArquivo`: it is counted; the
        first line is skipped as the header, any later one goes through
        `ReadDataLine`. `step` stands for `LineYield` with this quarter
        and year; `added` is what the line adds to the consolidated
        records. */
    method ReadLine(line: string, first: bool, quarter: string, year: string,
                    ghost step: string -> seq<Record>) returns (found: bool, ghost added: seq<Record>)
      requires Agrees(step, quarter, year)
      requires Valid() && Counted()
      modifies this
      ensures Valid() && Counted()
      ensures added == if first then [] else step(line)
      ensures consolidated == old(consolidated) + added
      ensures found <==> added != []
      ensures |added| <= 1
      ensures linesWithExpenses == old(linesWithExpenses) + |added|
      ensures totalLines == old(totalLines) + 1
    {
      totalLines := totalLines + 1;
      found := false;
      added := [];
      if !first {
        found := ReadDataLine(line, quarter, year);
        added := step(line);
      }
    }

    /** The line loop of `processarArquivo` for the file's quarter and
        year, with `step` standing for `LineYield` on them. */
    method ReadLines(lines: seq<string>, quarter: string, year: string,
                     ghost step: string -> seq<Record>) returns (linesInFile: nat, expensesInFile: nat)
      requires Agrees(step, quarter, year)
      requires Valid() && Counted()
      modifies this
      ensures Valid() && Counted()
      ensures consolidated == old(consolidated) + FileData(lines, step)
      ensures linesInFile == |lines| && totalLines == old(totalLines) + |lines|
      ensures expensesInFile == |FileData(lines, step)|
      ensures linesWithExpenses == old(linesWithExpenses) + expensesInFile
    {
      linesInFile := 0;
      expensesInFile := 0;
      var first := true;
      var n := 0;
      ghost var read: seq<Record> := [];
      while n < |lines|
        invariant 0 <= n <= |lines|
        invariant Valid() && Counted()
        invariant first <==> n == 0
        invariant read == FileData(lines[..n], step)
        invariant linesInFile == n && totalLines == old(totalLines) + n
        invariant consolidated == old(consolidated) + read
        invariant expensesInFile == |read|
        invariant linesWithExpenses == old(linesWithExpenses) + expensesInFile
      {
        FileDataSnoc(lines, n, step);
        linesInFile := linesInFile + 1;
        ghost var added;
        var found;
        found, added := ReadLine(lines[n], first, quarter, year, step);
        AppendAssoc(old(consolidated), read, added);
        read := read + added;
        first := false;
        if found {
          expensesInFile := expensesInFile + 1;
        }
        n := n + 1;
      }
      assert lines[..n] == lines;
    }

    /** `processarArquivo`: quarter and year come from the file name, then
        every line is read; the first is skipped as a header. */
    method ProcessFile(name: string, lines: seq<string>) returns (linesInFile: nat, expensesInFile: nat)
      requires Valid() && Counted()
      modifies this
      ensures Valid() && Counted()
      ensures consolidated == old(consolidated) + FileRecords(name, lines)
      ensures linesInFile == |lines| && totalLines == old(totalLines) + |lines|
      ensures expensesInFile == |FileRecords(name, lines)|
      ensures linesWithExpenses == old(linesWithExpenses) + expensesInFile
    {
      var quarter := ExtractQuarter(name);
      var year := ExtractYear(name);
      linesInFile, expensesInFile := ReadLines(lines, quarter, year, Yielder(quarter, year));
    }

    /** The stored records in `values()` order. */
    method Values() returns (a: array<Record>)
      requires Valid()
      ensures fresh(a) && a[..] == ValuesInOrder(consolidated)
    {
      SummaryParts(consolidated);
      KeyOrderSpec(consolidated);
      var m, o := records, order;
      assert m == Consolidated(consolidated) && o == KeyOrder(consolidated);
      a := new Record[|o|](i requires 0 <= i < |o| => m[o[i]]);
    }

    /** The data part of `gerarCSVConsolidado`: the stored records sorted by
        the comparator (a permutation of the store's values in comparator
        order) and rendered after the header. */
    method WriteConsolidated() returns (sorted: seq<Record>, out: seq<string>)
      requires Valid()
      ensures Ordered(sorted)
      ensures multiset(sorted) == multiset(ValuesInOrder(consolidated))
      ensures IsCsvOf(sorted, out)
    {
      var a := Values();
      SortRecords(a);
      sorted := a[..];
      out := RenderCsv(sorted);
    }
  }

  /** The writing loop of `gerarCSVConsolidado`: the header, then
      `toCSVLine` of each record in turn. */
  method RenderCsv(rs: seq<Record>) returns (out: seq<string>)
    ensures IsCsvOf(rs, out)
  {
    out := [Header];
    var i := 0;
    while i < |rs|
      invariant 0 <= i <= |rs|
      invariant |out| == i + 1 && out[0] == Header
      invariant forall j :: 0 <= j < i ==> out[j + 1] == CsvLine(rs[j])
    {
      out := out + [CsvLine(rs[i])];
      i := i + 1;
    }
  }
}
