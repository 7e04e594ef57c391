/**
 * `FinanceGetReport::process()`: the tabular decode with the total-line
 * rule switched on, so that trailing lines such as "Total\t100" become
 * named entries after the rows.
 */
module FinanceGetReport {
  import opened Results
  import opened Php
  import opened TabularReport

  /** `process()` on a finance report body. */
  method Process(body: string, inflate: string -> Option<string>) returns (result: Result<Report, Failure>)
    ensures result == Decode(body, inflate, true)
    ensures IsEmpty(body) || inflate(body).None? || IsEmpty(inflate(body).value) ==> result == Ok(EmptyReport)
  {
    result := TabularReport.Process(body, inflate, true);
  }

  /**
   * A line "name<TAB>amount" under a header that is not two columns wide
   * is a total: it stores the amount under the name, in place when the
   * name is already there, and uses up no integer key.
   */
  lemma TotalLine(r: Report, headers: seq<string>, prefix: seq<string>, name: string, amount: string)
    requires DecodeLines(headers, prefix, true) == Ok(r)
    requires |headers| != 2
    requires '\t' !in name && '\t' !in amount
    ensures DecodeLines(headers, prefix + [Implode('\t', [name, amount])], true) == Ok(Put(r, name, amount))
    ensures Lookup(Put(r, name, amount).entries, Name(name)) == Some(Total(amount))
    ensures forall k :: k != Name(name) ==> Lookup(Put(r, name, amount).entries, k) == Lookup(r.entries, k)
    ensures Put(r, name, amount).nextIndex == r.nextIndex
    ensures Name(name) in Keys(r.entries) ==> Keys(Put(r, name, amount).entries) == Keys(r.entries)
    ensures Name(name) !in Keys(r.entries) ==> Put(r, name, amount).entries == r.entries + [(Name(name), Total(amount))]
  {
    var line := Implode('\t', [name, amount]);
    ExplodeImplode('\t', [name, amount]);
    assert line == name + "\t" + amount;
    DecodeLinesSnoc(headers, prefix, line, true);
    if Name(name) !in Keys(r.entries) {
      AssignFresh(r.entries, Name(name), Total(amount));
    }
  }

  /** Under a two-column header no line is a total: the finance decode is the sales decode. */
  lemma {:induction false} TwoColumnHeader(headers: seq<string>, lines: seq<string>)
    requires |headers| == 2
    ensures DecodeLines(headers, lines, true) == DecodeLines(headers, lines, false)
    decreases |lines|
  {
    if lines != [] {
      var prefix, last := lines[..|lines| - 1], lines[|lines| - 1];
      assert lines == prefix + [last];
      TwoColumnHeader(headers, prefix);
      DecodeLinesSnoc(headers, prefix, last, true);
      DecodeLinesSnoc(headers, prefix, last, false);
    }
  }

  // ---------------------------------------------------------------------
  // Rows followed by totals, written out and read back
  // ---------------------------------------------------------------------

  /** One "name<TAB>amount" line per total. */
  function EncodeTotals(totals: seq<(string, string)>): (lines: seq<string>)
    ensures |lines| == |totals|
  {
    seq(|totals|, i requires 0 <= i < |totals| => Implode('\t', [totals[i].0, totals[i].1]))
  }

  /** Each total under its name. */
  function TotalEntries(totals: seq<(string, string)>): (es: seq<(Key, Entry)>)
    ensures |es| == |totals|
  {
    seq(|totals|, i requires 0 <= i < |totals| => (Name(totals[i].0), Total(totals[i].1)))
  }

  /** The names of the totals, in order. */
  function Names(totals: seq<(string, string)>): (names: seq<string>)
    ensures |names| == |totals|
  {
    seq(|totals|, i requires 0 <= i < |totals| => totals[i].0)
  }

  /** Totals a finance text can carry: no tabs, no newlines, no name twice. */
  predicate AreTotals(totals: seq<(string, string)>) {
    && Distinct(Names(totals))
    && forall i :: 0 <= i < |totals| ==>
         && '\t' !in totals[i].0 && '\t' !in totals[i].1
         && '\n' !in totals[i].0 && '\n' !in totals[i].1
  }

  lemma TotalsSnoc(totals: seq<(string, string)>, last: (string, string))
    ensures EncodeTotals(totals + [last]) == EncodeTotals(totals) + [Implode('\t', [last.0, last.1])]
    ensures TotalEntries(totals + [last]) == TotalEntries(totals) + [(Name(last.0), Total(last.1))]
    ensures Keys(TotalEntries(totals + [last])) == Keys(TotalEntries(totals)) + [Name(last.0)]
  {
    var a, b := EncodeTotals(totals + [last]), EncodeTotals(totals) + [Implode('\t', [last.0, last.1])];
    assert forall i :: 0 <= i < |a| ==> a[i] == b[i];
    var c, d := TotalEntries(totals + [last]), TotalEntries(totals) + [(Name(last.0), Total(last.1))];
    assert forall i :: 0 <= i < |c| ==> c[i] == d[i];
    var e, f := Keys(c), Keys(TotalEntries(totals)) + [Name(last.0)];
    assert forall i :: 0 <= i < |e| ==> e[i] == f[i];
  }

  lemma KeysAppend(a: seq<(Key, Entry)>, b: seq<(Key, Entry)>)
    ensures Keys(a + b) == Keys(a) + Keys(b)
  {
    var x, y := Keys(a + b), Keys(a) + Keys(b);
    assert forall i :: 0 <= i < |x| ==> x[i] == y[i];
  }

  /** One more total line, under a name not yet used. */
  lemma TotalsStep(headers: seq<string>, prefix: seq<string>, r: Report, before: seq<(string, string)>, last: (string, string))
    requires DecodeLines(headers, prefix + EncodeTotals(before), true) == Ok(Report(r.entries + TotalEntries(before), r.nextIndex))
    requires |headers| != 2 && '\t' !in last.0 && '\t' !in last.1
    requires Name(last.0) !in Keys(r.entries + TotalEntries(before))
    ensures DecodeLines(headers, prefix + EncodeTotals(before + [last]), true)
      == Ok(Report(r.entries + TotalEntries(before + [last]), r.nextIndex))
  {
    var s := Report(r.entries + TotalEntries(before), r.nextIndex);
    var line := Implode('\t', [last.0, last.1]);
    assert prefix + EncodeTotals(before + [last]) == (prefix + EncodeTotals(before)) + [line] by {
      TotalsSnoc(before, last);
    }
    assert r.entries + TotalEntries(before + [last]) == s.entries + [(Name(last.0), Total(last.1))] by {
      TotalsSnoc(before, last);
    }
    var t := Put(s, last.0, last.1);
    assert DecodeLines(headers, (prefix + EncodeTotals(before)) + [line], true) == Ok(t) by {
      TotalLine(s, headers, prefix + EncodeTotals(before), last.0, last.1);
    }
    assert t == Report(s.entries + [(Name(last.0), Total(last.1))], r.nextIndex) by {
      TotalLine(s, headers, prefix + EncodeTotals(before), last.0, last.1);
    }
  }

  /** A name that the earlier totals do not use and that `es` does not hold is still free after them. */
  lemma FreshName(es: seq<(Key, Entry)>, totals: seq<(string, string)>, name: string)
    requires Name(name) !in Keys(es)
    requires forall i :: 0 <= i < |totals| ==> totals[i].0 != name
    ensures Name(name) !in Keys(es + TotalEntries(totals))
  {
    KeysAppend(es, TotalEntries(totals));
    assert forall i :: 0 <= i < |totals| ==> Keys(TotalEntries(totals))[i] == Name(totals[i].0);
  }

  /**
   * Total lines after any successful prefix, with names new to it and
   * to each other, add one named entry each, in line order, and leave
   * the next integer key where it was.
   */
  lemma {:induction false} TotalsRoundTrip(headers: seq<string>, prefix: seq<string>, r: Report, totals: seq<(string, string)>)
    requires DecodeLines(headers, prefix, true) == Ok(r)
    requires |headers| != 2 && AreTotals(totals)
    requires forall i :: 0 <= i < |totals| ==> Name(totals[i].0) !in Keys(r.entries)
    ensures DecodeLines(headers, prefix + EncodeTotals(totals), true) == Ok(Report(r.entries + TotalEntries(totals), r.nextIndex))
    decreases |totals|
  {
    if totals == [] {
      assert prefix + EncodeTotals(totals) == prefix;
      assert r.entries + TotalEntries(totals) == r.entries;
    } else {
      var n := |totals| - 1;
      var before, last := totals[..n], totals[n];
      assert totals == before + [last];
      assert forall i :: 0 <= i < n ==> Names(before)[i] == Names(totals)[i];
      TotalsRoundTrip(headers, prefix, r, before);
      assert forall i :: 0 <= i < n ==> before[i].0 == Names(totals)[i] != Names(totals)[n];
      FreshName(r.entries, before, last.0);
      TotalsStep(headers, prefix, r, before, last);
    }
  }

  /** Rows then totals, read under a header that is not two columns wide. */
  lemma LinesRoundTrip(headers: seq<string>, rows: seq<seq<string>>, totals: seq<(string, string)>)
    requires IsTable(headers, rows) && |headers| != 2 && AreTotals(totals)
    ensures DecodeLines(headers, EncodeRows(rows) + EncodeTotals(totals), true)
      == Ok(Report(RowEntries(headers, rows) + TotalEntries(totals), |rows|))
  {
    RowsRoundTrip(headers, rows, true);
    var r := Report(RowEntries(headers, rows), |rows|);
    assert forall i :: 0 <= i < |totals| ==> Name(totals[i].0) !in Keys(r.entries);
    TotalsRoundTrip(headers, EncodeRows(rows), r, totals);
  }

  /** Total lines hold no newline. */
  lemma TotalsOneLine(totals: seq<(string, string)>)
    requires AreTotals(totals)
    ensures forall i :: 0 <= i < |totals| ==> '\n' !in EncodeTotals(totals)[i]
  {
    forall i | 0 <= i < |totals|
      ensures '\n' !in EncodeTotals(totals)[i]
    {
      ImplodeExcludes('\t', '\n', [totals[i].0, totals[i].1]);
    }
  }

  /**
   * A finance body that inflates to a header, rows as wide as it, and
   * then totals decodes to the rows under 0, 1, ... followed by the
   * totals under their names. The header must not be two columns wide,
   * or the totals would be read as rows.
   */
  lemma RoundTrip(body: string, inflate: string -> Option<string>,
                  headers: seq<string>, rows: seq<seq<string>>, totals: seq<(string, string)>)
    requires !IsEmpty(body)
    requires IsTable(headers, rows) && |headers| != 2 && AreTotals(totals)
    requires inflate(body) == Some(EncodeText(headers, EncodeRows(rows) + EncodeTotals(totals)))
    ensures Decode(body, inflate, true) == Ok(Report(RowEntries(headers, rows) + TotalEntries(totals), |rows|))
  {
    var a, b := EncodeRows(rows), EncodeTotals(totals);
    EncodeRowsOneLine(rows);
    TotalsOneLine(totals);
    assert forall i :: 0 <= i < |a + b| ==> '\n' !in (a + b)[i] by {
      assert forall i :: 0 <= i < |a| ==> (a + b)[i] == a[i];
      assert forall i :: |a| <= i < |a + b| ==> (a + b)[i] == b[i - |a|];
    }
    DecodeEncoded(body, inflate, headers, a + b, true);
    LinesRoundTrip(headers, rows, totals);
  }

  // ---------------------------------------------------------------------
  // The source's own example
  // ---------------------------------------------------------------------

  const ExampleTotals: seq<(string, string)> := [("Total", "100"), ("Grand Total", "500")]

  /** The lines after the header: the first row, a blank line, two more rows, two totals. */
  const ExampleLines: seq<string> := EncodeRows(ExampleRows[..1]) + [""] + EncodeRows(ExampleRows[1..]) + EncodeTotals(ExampleTotals)

  /** The report the example is expected to give: the rows, then the totals. */
  const ExampleReport: Report := Report(ExampleEntries + [(Name("Total"), Total("100")), (Name("Grand Total"), Total("500"))], 3)

  lemma ExampleAreTotals()
    ensures AreTotals(ExampleTotals)
  {
    assert Names(ExampleTotals) == ["Total", "Grand Total"];
  }

  /** The report text of the example before compression, one line per literal. */
  const ExampleReportText: string :=
    "Header 1\tHeader 2\tHeader 3\n" + "Foo\tBar\tFoobar\n" + "\n" + "Fizz\t\tFizzbuzz\n" + "\tTest\tTester\n" + "Total\t100\n" + "Grand Total\t500"

  /** The example's lines, spelled out. */
  lemma ExampleLinesSpelled()
    ensures ExampleLines == ["Foo\tBar\tFoobar", "", "Fizz\t\tFizzbuzz", "\tTest\tTester", "Total\t100", "Grand Total\t500"]
  {
    ExampleIsTable();
    ExampleRowLines();
    EncodeRowsAppend(ExampleRows[..1], ExampleRows[1..]);
    assert ExampleRows[..1] + ExampleRows[1..] == ExampleRows;
    var all := EncodeRows(ExampleRows);
    assert EncodeRows(ExampleRows[..1]) == all[..1] == ["Foo\tBar\tFoobar"];
    assert EncodeRows(ExampleRows[1..]) == all[1..] == ["Fizz\t\tFizzbuzz", "\tTest\tTester"];
    var t := EncodeTotals(ExampleTotals);
    ImplodeTwo('\t', "Total", "100");
    ImplodeTwo('\t', "Grand Total", "500");
    assert t[0] == "Total\t100";
    assert t[1] == "Grand Total\t500";
  }

  /** The example's lines joined by newlines, piece by piece, are that text. */
  lemma ExampleTextJoined()
    ensures "Header 1\tHeader 2\tHeader 3" + "\n" + ("Foo\tBar\tFoobar" + "\n" + ("" + "\n" + ("Fizz\t\tFizzbuzz" + "\n" +
      ("\tTest\tTester" + "\n" + ("Total\t100" + "\n" + "Grand Total\t500"))))) == ExampleReportText
  {
    assert "Header 1\tHeader 2\tHeader 3" + "\n" == "Header 1\tHeader 2\tHeader 3\n";
    assert "Foo\tBar\tFoobar" + "\n" == "Foo\tBar\tFoobar\n";
    assert "Fizz\t\tFizzbuzz" + "\n" == "Fizz\t\tFizzbuzz\n";
    assert "\tTest\tTester" + "\n" == "\tTest\tTester\n";
    assert "Total\t100" + "\n" == "Total\t100\n";
  }

  /** Seven lines joined by newlines. */
  lemma JoinSeven(p0: string, p1: string, p2: string, p3: string, p4: string, p5: string, p6: string)
    ensures Implode('\n', [p0, p1, p2, p3, p4, p5, p6]) ==
      p0 + "\n" + (p1 + "\n" + (p2 + "\n" + (p3 + "\n" + (p4 + "\n" + (p5 + "\n" + p6)))))
  {
    assert [p0, p1, p2, p3, p4, p5, p6] == [p0] + [p1, p2, p3, p4, p5, p6];
    ImplodeCons('\n', p0, [p1, p2, p3, p4, p5, p6]);
    assert [p1, p2, p3, p4, p5, p6] == [p1] + [p2, p3, p4, p5, p6];
    ImplodeCons('\n', p1, [p2, p3, p4, p5, p6]);
    assert [p2, p3, p4, p5, p6] == [p2] + [p3, p4, p5, p6];
    ImplodeCons('\n', p2, [p3, p4, p5, p6]);
    assert [p3, p4, p5, p6] == [p3] + [p4, p5, p6];
    ImplodeCons('\n', p3, [p4, p5, p6]);
    ImplodeThree('\n', p4, p5, p6);
  }

  /** The header and the example's lines, written out, are that text. */
  lemma ExampleTextEncoded()
    ensures EncodeText(ExampleHeader, ExampleLines) == ExampleReportText
  {
    ExampleHeaderLine();
    ExampleLinesSpelled();
    var h := "Header 1\tHeader 2\tHeader 3";
    assert [h] + ExampleLines == [h, "Foo\tBar\tFoobar", "", "Fizz\t\tFizzbuzz", "\tTest\tTester", "Total\t100", "Grand Total\t500"];
    JoinSeven(h, "Foo\tBar\tFoobar", "", "Fizz\t\tFizzbuzz", "\tTest\tTester", "Total\t100", "Grand Total\t500");
    ExampleTextJoined();
  }

  /**
   * The example: three rows with a blank line after the first, then the
   * totals "Total" and "Grand Total" after the rows, in that order.
   */
  lemma WorkedExample(body: string, inflate: string -> Option<string>)
    requires !IsEmpty(body)
    requires inflate(body) == Some(ExampleReportText)
    ensures Decode(body, inflate, true) == Ok(ExampleReport)
  {
    ExampleTextEncoded();
    ExampleOneLineEach();
    DecodeEncoded(body, inflate, ExampleHeader, ExampleLines, true);
    ExampleDecodeLines();
  }

  lemma ExampleOneLineEach()
    ensures forall i :: 0 <= i < |ExampleLines| ==> '\n' !in ExampleLines[i]
  {
    ExampleIsTable();
    ExampleAreTotals();
    var a, b, c := EncodeRows(ExampleRows[..1]), EncodeRows(ExampleRows[1..]), EncodeTotals(ExampleTotals);
    EncodeRowsOneLine(ExampleRows[..1]);
    EncodeRowsOneLine(ExampleRows[1..]);
    TotalsOneLine(ExampleTotals);
    assert ExampleLines == [a[0], "", b[0], b[1], c[0], c[1]];
  }

  lemma ExampleDecodeLines()
    ensures DecodeLines(ExampleHeader, ExampleLines, true) == Ok(ExampleReport)
  {
    ExampleIsTable();
    ExampleAreTotals();
    var first, later := ExampleRows[..1], ExampleRows[1..];
    var a, b, c := EncodeRows(first), EncodeRows(later), EncodeTotals(ExampleTotals);
    assert ExampleLines == a + [""] + (b + c);
    BlankLineAnywhere(ExampleHeader, a, "", b + c, true);
    EncodeRowsAppend(first, later);
    assert first + later == ExampleRows;
    assert a + (b + c) == EncodeRows(ExampleRows) + c;
    LinesRoundTrip(ExampleHeader, ExampleRows, ExampleTotals);
    ExampleRowEntries();
    assert TotalEntries(ExampleTotals) == [(Name("Total"), Total("100")), (Name("Grand Total"), Total("500"))];
  }
}
