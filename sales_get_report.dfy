/**
 * `SalesGetReport::process()`: the tabular decode with no total rule.
 * Every non-blank line after the header must be exactly as wide as the
 * header; each becomes the header combined with its fields, under the
 * integer keys 0, 1, ...
 */
module SalesGetReport {
  import opened Results
  import opened Php
  import opened TabularReport

  /** `process()` on a sales report body. */
  method Process(body: string, inflate: string -> Option<string>) returns (result: Result<Report, Failure>)
    ensures result == Decode(body, inflate, false)
    ensures IsEmpty(body) || inflate(body).None? || IsEmpty(inflate(body).value) ==> result == Ok(EmptyReport)
  {
    result := TabularReport.Process(body, inflate, false);
  }

  /** A line as wide as the header, after lines that all fit, appends the next row. */
  lemma FitStep(headers: seq<string>, prefix: seq<string>, last: string)
    requires !IsEmpty(last) && |Fields(last)| == |headers|
    requires Fits(headers, prefix)
    requires DecodeLines(headers, prefix, false) == Ok(Report(RowsOf(headers, prefix), |prefix|))
    ensures Fits(headers, prefix + [last])
    ensures DecodeLines(headers, prefix + [last], false) == Ok(Report(RowsOf(headers, prefix + [last]), |prefix| + 1))
  {
    var r := Report(RowsOf(headers, prefix), |prefix|);
    var row := Combine(headers, Fields(last));
    DecodeLinesSnoc(headers, prefix, last, false);
    assert !IsTotalLine(headers, Fields(last), false);
    assert Step(r, headers, last, false) == Ok(Append(r, row));
    RowsOfSnoc(headers, prefix, last);
    assert Append(r, row) == Report(RowsOf(headers, prefix) + [(Index(|prefix|), Row(row))], |prefix| + 1);
  }

  /** A line of another width, after lines that decoded, is the failure. */
  lemma MisfitStep(headers: seq<string>, prefix: seq<string>, last: string)
    requires !IsEmpty(last) && |Fields(last)| != |headers|
    requires DecodeLines(headers, prefix, false).Ok?
    ensures DecodeLines(headers, prefix + [last], false) == Err(WidthMismatch(|headers|, |Fields(last)|))
  {
    DecodeLinesSnoc(headers, prefix, last, false);
  }

  /**
   * When some line is the first one wider or narrower than the header,
   * the decode fails naming the header width and that line's width.
   */
  predicate FailsAtFirstMisfit(headers: seq<string>, lines: seq<string>) {
    forall k :: 0 <= k < |lines| && Fits(headers, lines[..k]) && |Fields(lines[k])| != |headers| ==>
      DecodeLines(headers, lines, false) == Err(WidthMismatch(|headers|, |Fields(lines[k])|))
  }

  /** The first misfit is the last line: the decode fails on it. */
  lemma MisfitLast(headers: seq<string>, prefix: seq<string>, last: string)
    requires !IsEmpty(last) && |Fields(last)| != |headers|
    requires Fits(headers, prefix) && DecodeLines(headers, prefix, false).Ok?
    ensures DecodeLines(headers, prefix + [last], false).Err?
    ensures !Fits(headers, prefix + [last])
    ensures FailsAtFirstMisfit(headers, prefix + [last])
  {
    var lines := prefix + [last];
    var n := |prefix|;
    MisfitStep(headers, prefix, last);
    assert lines[n] == last;
    forall k | 0 <= k < |lines| && Fits(headers, lines[..k]) && |Fields(lines[k])| != |headers|
      ensures k == n
    {
    }
  }

  /** The first misfit came earlier: the decode keeps that failure. */
  lemma MisfitEarlier(headers: seq<string>, prefix: seq<string>, last: string)
    requires !Fits(headers, prefix) && DecodeLines(headers, prefix, false).Err?
    requires FailsAtFirstMisfit(headers, prefix)
    ensures DecodeLines(headers, prefix + [last], false) == DecodeLines(headers, prefix, false)
    ensures !Fits(headers, prefix + [last])
    ensures FailsAtFirstMisfit(headers, prefix + [last])
  {
    var lines := prefix + [last];
    var n := |prefix|;
    DecodeLinesSnoc(headers, prefix, last, false);
    assert !Fits(headers, lines) by {
      var j :| 0 <= j < n && |Fields(prefix[j])| != |headers|;
      assert lines[j] == prefix[j];
    }
    assert lines[..n] == prefix;
    forall k | 0 <= k < |lines| && Fits(headers, lines[..k]) && |Fields(lines[k])| != |headers|
      ensures k < n && prefix[..k] == lines[..k] && prefix[k] == lines[k]
    {
    }
  }

  /** One more non-blank line keeps what `KeptLines` states. */
  lemma KeptStep(headers: seq<string>, prefix: seq<string>, last: string)
    requires !IsEmpty(last)
    requires DecodeLines(headers, prefix, false).Ok? <==> Fits(headers, prefix)
    requires Fits(headers, prefix) ==> DecodeLines(headers, prefix, false) == Ok(Report(RowsOf(headers, prefix), |prefix|))
    requires FailsAtFirstMisfit(headers, prefix)
    ensures DecodeLines(headers, prefix + [last], false).Ok? <==> Fits(headers, prefix + [last])
    ensures Fits(headers, prefix + [last]) ==>
      DecodeLines(headers, prefix + [last], false) == Ok(Report(RowsOf(headers, prefix + [last]), |prefix| + 1))
    ensures FailsAtFirstMisfit(headers, prefix + [last])
  {
    if !Fits(headers, prefix) {
      MisfitEarlier(headers, prefix, last);
    } else if |Fields(last)| == |headers| {
      FitStep(headers, prefix, last);
    } else {
      MisfitLast(headers, prefix, last);
    }
  }

  /**
   * Over non-blank lines, the sales decode succeeds exactly when every
   * line is as wide as the header, and then holds line `i` combined with
   * the header under key `i`. When it fails, the error names the header
   * width and the width of the first line that differs from it.
   */
  lemma {:induction false} KeptLines(headers: seq<string>, lines: seq<string>)
    requires forall i :: 0 <= i < |lines| ==> !IsEmpty(lines[i])
    ensures DecodeLines(headers, lines, false).Ok? <==> Fits(headers, lines)
    ensures Fits(headers, lines) ==> DecodeLines(headers, lines, false) == Ok(Report(RowsOf(headers, lines), |lines|))
    ensures FailsAtFirstMisfit(headers, lines)
    decreases |lines|
  {
    if lines != [] {
      var n := |lines| - 1;
      var prefix, last := lines[..n], lines[n];
      KeptLines(headers, prefix);
      KeptStep(headers, prefix, last);
      assert lines == prefix + [last];
    }
  }

  /**
   * The sales decode of any lines: blank lines are skipped, and the
   * rest is as `KeptLines` says, down to the widths reported for the
   * first non-blank line that does not fit.
   */
  lemma Decoded(headers: seq<string>, lines: seq<string>)
    ensures DecodeLines(headers, lines, false).Ok? <==> Fits(headers, NonBlank(lines))
    ensures Fits(headers, NonBlank(lines)) ==>
      DecodeLines(headers, lines, false) == Ok(Report(RowsOf(headers, NonBlank(lines)), |NonBlank(lines)|))
    ensures var kept := NonBlank(lines);
      forall k :: 0 <= k < |kept| && Fits(headers, kept[..k]) && |Fields(kept[k])| != |headers| ==>
        DecodeLines(headers, lines, false) == Err(WidthMismatch(|headers|, |Fields(kept[k])|))
  {
    BlankLinesIgnored(headers, lines, false);
    KeptLines(headers, NonBlank(lines));
  }

  /**
   * A sales body that inflates to a header line and rows as wide as it
   * decodes to those rows, in order, under the keys 0, 1, ...
   */
  lemma RoundTrip(body: string, inflate: string -> Option<string>, headers: seq<string>, rows: seq<seq<string>>)
    requires !IsEmpty(body) && IsTable(headers, rows)
    requires inflate(body) == Some(EncodeText(headers, EncodeRows(rows)))
    ensures Decode(body, inflate, false) == Ok(Report(RowEntries(headers, rows), |rows|))
  {
    EncodeRowsOneLine(rows);
    DecodeEncoded(body, inflate, headers, EncodeRows(rows), false);
    RowsRoundTrip(headers, rows, false);
  }

  /** The lines after the header in the example: a blank line, then the three rows. */
  const ExampleLines: seq<string> := [""] + EncodeRows(ExampleRows)

  /** No line of the example holds a newline. */
  lemma ExampleOneLineEach()
    ensures forall i :: 0 <= i < |ExampleLines| ==> '\n' !in ExampleLines[i]
  {
    ExampleIsTable();
    EncodeRowsOneLine(ExampleRows);
    var a := EncodeRows(ExampleRows);
    assert ExampleLines == ["", a[0], a[1], a[2]];
  }

  /** The blank line of the example is skipped. */
  lemma ExampleSkipsBlank()
    ensures DecodeLines(ExampleHeader, ExampleLines, false) == DecodeLines(ExampleHeader, EncodeRows(ExampleRows), false)
  {
    var a := EncodeRows(ExampleRows);
    assert ExampleLines == [] + [""] + a;
    assert [] + a == a;
    BlankLineAnywhere(ExampleHeader, [], "", a, false);
  }

  /** The report text of the example before compression, one line per literal. */
  const ExampleReportText: string :=
    "Header 1\tHeader 2\tHeader 3\n" + "\n" + "Foo\tBar\tFoobar\n" + "Fizz\t\tFizzbuzz\n" + "\tTest\tTester"

  /** The example's lines joined by newlines, piece by piece, are that text. */
  lemma ExampleTextJoined()
    ensures "Header 1\tHeader 2\tHeader 3" + "\n" + ("" + "\n" + ("Foo\tBar\tFoobar" + "\n" + "Fizz\t\tFizzbuzz" + "\n" + "\tTest\tTester"))
      == ExampleReportText
  {
    assert "Header 1\tHeader 2\tHeader 3" + "\n" == "Header 1\tHeader 2\tHeader 3\n";
    assert "Foo\tBar\tFoobar" + "\n" == "Foo\tBar\tFoobar\n";
    assert "Fizz\t\tFizzbuzz" + "\n" == "Fizz\t\tFizzbuzz\n";
  }

  /** The header and the example's lines, written out, are that text. */
  lemma ExampleTextEncoded()
    ensures EncodeText(ExampleHeader, ExampleLines) == ExampleReportText
  {
    ExampleHeaderLine();
    ExampleRowLines();
    var h, r0, r1, r2 := "Header 1\tHeader 2\tHeader 3", "Foo\tBar\tFoobar", "Fizz\t\tFizzbuzz", "\tTest\tTester";
    assert ExampleLines == ["", r0, r1, r2];
    ImplodeCons('\n', h, ["", r0, r1, r2]);
    assert ["", r0, r1, r2] == [""] + [r0, r1, r2];
    ImplodeCons('\n', "", [r0, r1, r2]);
    ImplodeThree('\n', r0, r1, r2);
    ExampleTextJoined();
  }

  /**
   * The example: a blank line right after the header is skipped, and the
   * three rows come back in order.
   */
  lemma WorkedExample(body: string, inflate: string -> Option<string>)
    requires !IsEmpty(body)
    requires inflate(body) == Some(ExampleReportText)
    ensures Decode(body, inflate, false) == Ok(Report(ExampleEntries, 3))
  {
    ExampleTextEncoded();
    ExampleHeaderClean();
    ExampleOneLineEach();
    DecodeEncoded(body, inflate, ExampleHeader, ExampleLines, false);
    ExampleSkipsBlank();
    ExampleIsTable();
    RowsRoundTrip(ExampleHeader, ExampleRows, false);
    ExampleRowEntries();
  }
}
