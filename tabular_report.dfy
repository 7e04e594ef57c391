/**
 * The tab-separated report decoder behind the finance and sales report
 * processors. The body is gzip-inflated; the first line of the text is
 * the header; every further non-blank line becomes a row that maps each
 * header name to the field in the same position. With `totals` set (the
 * finance variant), a line of exactly two fields under a header of
 * another width is a named total instead of a row.
 */
module TabularReport {
  import opened Results
  import opened Php

  /** A key of the result array: a row's integer position, or a total's name. */
  datatype Key = Index(n: nat) | Name(name: string)

  /** A value of the result array: a row (header name to field), or a total's amount. */
  datatype Entry = Row(fields: seq<(string, string)>) | Total(amount: string)

  /**
   * The result array: its entries in insertion order, and the integer
   * key that the next `$reportArray[] = ...` will use.
   */
  datatype Report = Report(entries: seq<(Key, Entry)>, nextIndex: nat)

  /** `array_combine` handed a header and a line of different widths. */
  datatype Failure = WidthMismatch(headerCount: nat, fieldCount: nat)

  const EmptyReport: Report := Report([], 0)

  /** `explode("\t", $line)` */
  function Fields(line: string): seq<string> {
    Explode('\t', line)
  }

  /** `$reportArray[] = $row` */
  function Append(r: Report, row: seq<(string, string)>): Report {
    Report(r.entries + [(Index(r.nextIndex), Row(row))], r.nextIndex + 1)
  }

  /** `$reportArray[$name] = $amount` */
  function Put(r: Report, name: string, amount: string): Report {
    Report(Assign(r.entries, Name(name), Total(amount)), r.nextIndex)
  }

  /** The finance rule: two fields under a header of any other width make a total. */
  predicate IsTotalLine(headers: seq<string>, data: seq<string>, totals: bool) {
    totals && |headers| != |data| && |data| == 2
  }

  /** One turn of the loop over the lines after the header. */
  function Step(r: Report, headers: seq<string>, line: string, totals: bool): Result<Report, Failure> {
    if IsEmpty(line) then Ok(r)
    else
      var data := Fields(line);
      if IsTotalLine(headers, data, totals) then Ok(Put(r, data[0], data[1]))
      else if |headers| != |data| then Err(WidthMismatch(|headers|, |data|))
      else Ok(Append(r, Combine(headers, data)))
  }

  /** The loop over the lines after the header, from an empty array. */
  function DecodeLines(headers: seq<string>, lines: seq<string>, totals: bool): Result<Report, Failure>
    decreases |lines|
  {
    if lines == [] then Ok(EmptyReport)
    else
      match DecodeLines(headers, lines[..|lines| - 1], totals)
      case Err(f) => Err(f)
      case Ok(r) => Step(r, headers, lines[|lines| - 1], totals)
  }

  /** Split the inflated text into lines; the first one is the header. */
  function DecodeText(text: string, totals: bool): Result<Report, Failure> {
    var lines := Explode('\n', text);
    DecodeLines(Fields(lines[0]), lines[1..], totals)
  }

  /**
   * The whole decode: an empty body, a body that does not inflate, and
   * one that inflates to an empty text all give the empty array.
   */
  function Decode(body: string, inflate: string -> Option<string>, totals: bool): Result<Report, Failure> {
    if IsEmpty(body) then Ok(EmptyReport)
    else
      match inflate(body)
      case None => Ok(EmptyReport)
      case Some(text) => if IsEmpty(text) then Ok(EmptyReport) else DecodeText(text, totals)
  }

  /** `process()`: the decode as the source runs it, one line at a time. */
  method Process(body: string, inflate: string -> Option<string>, totals: bool)
    returns (result: Result<Report, Failure>)
    ensures result == Decode(body, inflate, totals)
    ensures IsEmpty(body) ==> result == Ok(EmptyReport)
    ensures inflate(body).None? || IsEmpty(inflate(body).value) ==> result == Ok(EmptyReport)
  {
    if IsEmpty(body) {
      return Ok(EmptyReport);
    }
    var reportText := inflate(body);
    if reportText.None? || IsEmpty(reportText.value) {
      return Ok(EmptyReport);
    }
    var rows := Explode('\n', reportText.value);
    var headers := Fields(rows[0]);
    rows := rows[1..];
    var report := EmptyReport;
    var i := 0;
    while i < |rows|
      invariant i <= |rows|
      invariant DecodeLines(headers, rows[..i], totals) == Ok(report)
    {
      DecodeStep(headers, rows, i, totals);
      var values := rows[i];
      if !IsEmpty(values) {
        var data := Fields(values);
        if totals && |headers| != |data| && |data| == 2 {
          report := Put(report, data[0], data[1]);
        } else if |headers| != |data| {
          ErrorStops(headers, rows, i + 1, totals);
          return Err(WidthMismatch(|headers|, |data|));
        } else {
          report := Append(report, Combine(headers, data));
        }
      }
      i := i + 1;
    }
    assert rows[..i] == rows;
    return Ok(report);
  }

  /** Once a line fails, the lines after it do not matter. */
  lemma {:induction false} ErrorStops(headers: seq<string>, lines: seq<string>, k: nat, totals: bool)
    requires k <= |lines|
    requires DecodeLines(headers, lines[..k], totals).Err?
    ensures DecodeLines(headers, lines, totals) == DecodeLines(headers, lines[..k], totals)
    decreases |lines|
  {
    if k < |lines| {
      var prefix := lines[..|lines| - 1];
      assert prefix[..k] == lines[..k];
      ErrorStops(headers, prefix, k, totals);
    } else {
      assert lines[..k] == lines;
    }
  }

  /** The fold over `prefix + [last]` is one more step after the fold over `prefix`. */
  lemma DecodeLinesSnoc(headers: seq<string>, prefix: seq<string>, last: string, totals: bool)
    ensures var before := DecodeLines(headers, prefix, totals);
      DecodeLines(headers, prefix + [last], totals) ==
        if before.Err? then before else Step(before.value, headers, last, totals)
  {
    assert (prefix + [last])[..|prefix|] == prefix;
  }

  /** The fold over the first `i + 1` lines is one more step after the fold over the first `i`. */
  lemma DecodeStep(headers: seq<string>, lines: seq<string>, i: nat, totals: bool)
    requires i < |lines|
    ensures var before := DecodeLines(headers, lines[..i], totals);
      DecodeLines(headers, lines[..i + 1], totals) ==
        if before.Err? then before else Step(before.value, headers, lines[i], totals)
  {
    assert lines[..i + 1][..i] == lines[..i];
  }

  /**
   * A row line after `prefix`, as wide as a header with no repeated
   * name, appends the header zipped with its fields under the next
   * integer key.
   */
  lemma RowLine(r: Report, headers: seq<string>, prefix: seq<string>, cells: seq<string>, totals: bool)
    requires DecodeLines(headers, prefix, totals) == Ok(r)
    requires 1 <= |cells| == |headers| && Distinct(headers)
    requires forall i :: 0 <= i < |cells| ==> '\t' !in cells[i]
    requires !IsEmpty(Implode('\t', cells)) && !IsTotalLine(headers, cells, totals)
    ensures DecodeLines(headers, prefix + [Implode('\t', cells)], totals) == Ok(Append(r, Zip(headers, cells)))
    ensures Append(r, Zip(headers, cells)).entries == r.entries + [(Index(r.nextIndex), Row(Zip(headers, cells)))]
  {
    DecodeLinesSnoc(headers, prefix, Implode('\t', cells), totals);
    ExplodeImplode('\t', cells);
    CombineDistinct(headers, cells);
  }

  // ---------------------------------------------------------------------
  // The header line
  // ---------------------------------------------------------------------

  /**
   * The first line of the text is consumed as the header: the result is
   * the fold of the remaining lines alone, under that header's names.
   */
  lemma HeaderConsumed(header: string, lines: seq<string>, totals: bool)
    requires '\n' !in header
    requires forall i :: 0 <= i < |lines| ==> '\n' !in lines[i]
    ensures DecodeText(Implode('\n', [header] + lines), totals) == DecodeLines(Fields(header), lines, totals)
  {
    ExplodeImplode('\n', [header] + lines);
    assert ([header] + lines)[1..] == lines;
  }

  // ---------------------------------------------------------------------
  // Blank lines
  // ---------------------------------------------------------------------

  /** The lines that `empty()` does not skip, in order. */
  function NonBlank(lines: seq<string>): (kept: seq<string>)
    ensures forall i :: 0 <= i < |kept| ==> !IsEmpty(kept[i])
    decreases |lines|
  {
    if lines == [] then []
    else
      var last := lines[|lines| - 1];
      NonBlank(lines[..|lines| - 1]) + (if IsEmpty(last) then [] else [last])
  }

  /** Blank lines ("" and "0") contribute nothing, wherever they are. */
  lemma {:induction false} BlankLinesIgnored(headers: seq<string>, lines: seq<string>, totals: bool)
    ensures DecodeLines(headers, lines, totals) == DecodeLines(headers, NonBlank(lines), totals)
    decreases |lines|
  {
    if lines != [] {
      var prefix, last := lines[..|lines| - 1], lines[|lines| - 1];
      BlankLinesIgnored(headers, prefix, totals);
      var kept := NonBlank(prefix);
      assert lines == prefix + [last];
      DecodeLinesSnoc(headers, prefix, last, totals);
      if !IsEmpty(last) {
        assert NonBlank(lines) == kept + [last];
        DecodeLinesSnoc(headers, kept, last, totals);
      } else {
        assert NonBlank(lines) == kept;
      }
    }
  }

  // ---------------------------------------------------------------------
  // Writing a table out and reading it back
  // ---------------------------------------------------------------------

  /**
   * A table a report text can carry: names and cells free of tabs and
   * newlines, every row as wide as the header, no row written as a
   * blank line.
   */
  predicate IsTable(headers: seq<string>, rows: seq<seq<string>>) {
    && 1 <= |headers| && Distinct(headers)
    && (forall j :: 0 <= j < |headers| ==> '\t' !in headers[j] && '\n' !in headers[j])
    && (forall i :: 0 <= i < |rows| ==> |rows[i]| == |headers|)
    && (forall i, j :: 0 <= i < |rows| && 0 <= j < |rows[i]| ==> '\t' !in rows[i][j] && '\n' !in rows[i][j])
    && (forall i :: 0 <= i < |rows| ==> !IsEmpty(Implode('\t', rows[i])))
  }

  /** A row of two cells or more holds a tab, so it is never read as blank. */
  lemma WideRowNotBlank(cells: seq<string>)
    requires |cells| >= 2
    ensures !IsEmpty(Implode('\t', cells))
  {
    ImplodeCons('\t', cells[0], cells[1..]);
    assert cells == [cells[0]] + cells[1..];
    assert Implode('\t', cells)[|cells[0]|] == '\t';
  }

  /** The inflated text: the header line, then the given lines. */
  function EncodeText(headers: seq<string>, lines: seq<string>): string
    requires |headers| >= 1
  {
    Implode('\n', [Implode('\t', headers)] + lines)
  }

  /** One line per row, its cells joined by tabs. */
  function EncodeRows(rows: seq<seq<string>>): (lines: seq<string>)
    requires forall i :: 0 <= i < |rows| ==> |rows[i]| >= 1
    ensures |lines| == |rows|
  {
    seq(|rows|, i requires 0 <= i < |rows| => Implode('\t', rows[i]))
  }

  /** Row `i` under integer key `i`, the header zipped with its cells. */
  function RowEntries(headers: seq<string>, rows: seq<seq<string>>): (es: seq<(Key, Entry)>)
    requires forall i :: 0 <= i < |rows| ==> |rows[i]| == |headers|
    ensures |es| == |rows|
  {
    seq(|rows|, i requires 0 <= i < |rows| => (Index(i), Row(Zip(headers, rows[i]))))
  }

  /**
   * A body that inflates to a header line and some lines decodes to the
   * fold of those lines under that header; an empty text can only come
   * from no lines, and then both sides are the empty array.
   */
  lemma DecodeEncoded(body: string, inflate: string -> Option<string>, headers: seq<string>, lines: seq<string>, totals: bool)
    requires !IsEmpty(body)
    requires 1 <= |headers| && forall j :: 0 <= j < |headers| ==> '\t' !in headers[j] && '\n' !in headers[j]
    requires forall i :: 0 <= i < |lines| ==> '\n' !in lines[i]
    requires inflate(body) == Some(EncodeText(headers, lines))
    ensures Decode(body, inflate, totals) == DecodeLines(headers, lines, totals)
  {
    var header := Implode('\t', headers);
    ImplodeExcludes('\t', '\n', headers);
    ExplodeImplode('\t', headers);
    HeaderConsumed(header, lines, totals);
    if lines != [] {
      ImplodeCons('\n', header, lines);
      assert '\n' in EncodeText(headers, lines) by {
        assert EncodeText(headers, lines)[|header|] == '\n';
      }
    }
  }

  /** Encoding rows one after another is encoding them together. */
  lemma EncodeRowsAppend(a: seq<seq<string>>, b: seq<seq<string>>)
    requires forall i :: 0 <= i < |a| ==> |a[i]| >= 1
    requires forall i :: 0 <= i < |b| ==> |b[i]| >= 1
    ensures EncodeRows(a + b) == EncodeRows(a) + EncodeRows(b)
  {
    var x, y := EncodeRows(a + b), EncodeRows(a) + EncodeRows(b);
    assert forall i :: 0 <= i < |x| ==> x[i] == y[i];
  }

  /** Cells free of newlines give lines free of newlines. */
  lemma EncodeRowsOneLine(rows: seq<seq<string>>)
    requires forall i :: 0 <= i < |rows| ==> |rows[i]| >= 1
    requires forall i, j :: 0 <= i < |rows| && 0 <= j < |rows[i]| ==> '\n' !in rows[i][j]
    ensures forall i :: 0 <= i < |rows| ==> '\n' !in EncodeRows(rows)[i]
  {
    forall i | 0 <= i < |rows|
      ensures '\n' !in EncodeRows(rows)[i]
    {
      ImplodeExcludes('\t', '\n', rows[i]);
    }
  }

  lemma RowEntriesSnoc(headers: seq<string>, rows: seq<seq<string>>, last: seq<string>)
    requires forall i :: 0 <= i < |rows| ==> |rows[i]| == |headers|
    requires |last| == |headers|
    ensures RowEntries(headers, rows + [last]) == RowEntries(headers, rows) + [(Index(|rows|), Row(Zip(headers, last)))]
  {
    var a, b := RowEntries(headers, rows + [last]), RowEntries(headers, rows) + [(Index(|rows|), Row(Zip(headers, last)))];
    assert forall i :: 0 <= i < |a| ==> a[i] == b[i];
  }

  /**
   * Lines written from a table read back as its rows, in order, under
   * the integer keys 0, 1, ..., whichever decoder reads them.
   */
  lemma {:induction false} RowsRoundTrip(headers: seq<string>, rows: seq<seq<string>>, totals: bool)
    requires IsTable(headers, rows)
    ensures DecodeLines(headers, EncodeRows(rows), totals) == Ok(Report(RowEntries(headers, rows), |rows|))
    decreases |rows|
  {
    if rows == [] {
      assert EncodeRows(rows) == [];
    } else {
      var n := |rows| - 1;
      var prefix, last := rows[..n], rows[n];
      assert rows == prefix + [last];
      assert IsTable(headers, prefix);
      RowsRoundTrip(headers, prefix, totals);
      EncodeRowsAppend(prefix, [last]);
      assert EncodeRows([last]) == [Implode('\t', last)];
      RowEntriesSnoc(headers, prefix, last);
      RowLine(Report(RowEntries(headers, prefix), n), headers, EncodeRows(prefix), last, totals);
    }
  }

  /** Keeping the non-blank lines of two stretches is keeping them of each. */
  lemma {:induction false} NonBlankAppend(a: seq<string>, b: seq<string>)
    ensures NonBlank(a + b) == NonBlank(a) + NonBlank(b)
    decreases |b|
  {
    if b == [] {
      assert a + b == a;
    } else {
      var prefix, last := b[..|b| - 1], b[|b| - 1];
      assert b == prefix + [last];
      assert a + b == (a + prefix) + [last];
      NonBlankAppend(a, prefix);
    }
  }

  /** A blank line dropped between any two stretches of lines changes nothing. */
  lemma BlankLineAnywhere(headers: seq<string>, before: seq<string>, blank: string, after: seq<string>, totals: bool)
    requires IsEmpty(blank)
    ensures DecodeLines(headers, before + [blank] + after, totals) == DecodeLines(headers, before + after, totals)
  {
    var x, y := before + [blank] + after, before + after;
    assert NonBlank(x) == NonBlank(y) by {
      NonBlankAppend(before + [blank], after);
      NonBlankAppend(before, [blank]);
      NonBlankAppend(before, after);
      assert [blank][..0] == [];
      assert NonBlank([blank]) == [];
    }
    BlankLinesIgnored(headers, x, totals);
    BlankLinesIgnored(headers, y, totals);
  }

  // ---------------------------------------------------------------------
  // What the result holds
  // ---------------------------------------------------------------------

  /** The non-blank lines that are not totals: the lines that become rows. */
  function DataLines(headers: seq<string>, lines: seq<string>, totals: bool): seq<string>
    decreases |lines|
  {
    if lines == [] then []
    else
      var last := lines[|lines| - 1];
      DataLines(headers, lines[..|lines| - 1], totals)
        + (if IsEmpty(last) || IsTotalLine(headers, Fields(last), totals) then [] else [last])
  }

  /** The total lines, as (name, amount) pairs in line order. */
  function TotalLines(headers: seq<string>, lines: seq<string>, totals: bool): seq<(string, string)>
    decreases |lines|
  {
    if lines == [] then []
    else
      var last := lines[|lines| - 1];
      var data := Fields(last);
      TotalLines(headers, lines[..|lines| - 1], totals)
        + (if !IsEmpty(last) && IsTotalLine(headers, data, totals) then [(data[0], data[1])] else [])
  }

  /** The amount of the last total called `name`, if any. */
  function LastTotal(pairs: seq<(string, string)>, name: string): Option<Entry>
    decreases |pairs|
  {
    if pairs == [] then None
    else if pairs[|pairs| - 1].0 == name then Some(Total(pairs[|pairs| - 1].1))
    else LastTotal(pairs[..|pairs| - 1], name)
  }

  /** Every line has as many fields as the header. */
  predicate Fits(headers: seq<string>, lines: seq<string>) {
    forall i :: 0 <= i < |lines| ==> |Fields(lines[i])| == |headers|
  }

  /** The row entries: line `i` of `data` combined with the header, under integer key `i`. */
  function RowsOf(headers: seq<string>, data: seq<string>): (es: seq<(Key, Entry)>)
    requires Fits(headers, data)
    ensures |es| == |data|
    ensures forall i :: 0 <= i < |es| ==> es[i].0 == Index(i)
    decreases |data|
  {
    if data == [] then []
    else
      var n := |data| - 1;
      assert Fits(headers, data[..n]) by {
        forall i | 0 <= i < n
          ensures |Fields(data[..n][i])| == |headers|
        {
          assert data[..n][i] == data[i];
        }
      }
      var before := RowsOf(headers, data[..n]);
      var es := before + [(Index(n), Row(Combine(headers, Fields(data[n]))))];
      assert forall i :: 0 <= i < |es| ==> es[i].0 == Index(i) by {
        forall i | 0 <= i < |es|
          ensures es[i].0 == Index(i)
        {
          if i < n {
            assert es[i] == before[i];
          }
        }
      }
      es
  }

  /** The entries with an integer key, in order. */
  function Indexed(es: seq<(Key, Entry)>): seq<(Key, Entry)>
    decreases |es|
  {
    if es == [] then [] else (if es[0].0.Index? then [es[0]] else []) + Indexed(es[1..])
  }

  lemma {:induction false} IndexedAppend(es: seq<(Key, Entry)>, e: (Key, Entry))
    ensures Indexed(es + [e]) == Indexed(es) + (if e.0.Index? then [e] else [])
    decreases |es|
  {
    if es != [] {
      IndexedAppend(es[1..], e);
      assert (es + [e])[1..] == es[1..] + [e];
    }
  }

  lemma {:induction false} IndexedAssignName(es: seq<(Key, Entry)>, name: string, v: Entry)
    ensures Indexed(Assign(es, Name(name), v)) == Indexed(es)
    decreases |es|
  {
    if es != [] && es[0].0 != Name(name) {
      IndexedAssignName(es[1..], name, v);
    }
  }

  /** An integer key that no indexed entry carries is not a key at all. */
  lemma {:induction false} IndexedKeysBelow(es: seq<(Key, Entry)>, n: nat)
    requires forall i :: 0 <= i < |Indexed(es)| ==> Indexed(es)[i].0 != Index(n)
    ensures Index(n) !in Keys(es)
    decreases |es|
  {
    if es != [] {
      var rest := Indexed(es[1..]);
      var off := if es[0].0.Index? then 1 else 0;
      assert Indexed(es) == (if es[0].0.Index? then [es[0]] else []) + rest;
      assert forall i :: 0 <= i < |rest| ==> Indexed(es)[i + off] == rest[i];
      if es[0].0.Index? {
        assert Indexed(es)[0] == es[0];
      }
      IndexedKeysBelow(es[1..], n);
      KeysCons(es[0], es[1..]);
      assert es == [es[0]] + es[1..];
    }
  }

  /** What a successful decode over `lines` holds, stated by `Decoded` below. */
  ghost predicate Describes(r: Report, headers: seq<string>, lines: seq<string>, totals: bool) {
    var rows := DataLines(headers, lines, totals);
    && Fits(headers, rows)
    && Distinct(Keys(r.entries))
    && r.nextIndex == |rows|
    && Indexed(r.entries) == RowsOf(headers, rows)
    && forall name :: Lookup(r.entries, Name(name)) == LastTotal(TotalLines(headers, lines, totals), name)
  }

  /** What one more line adds to the row lines and to the total lines. */
  lemma LinesSnoc(headers: seq<string>, prefix: seq<string>, last: string, totals: bool)
    ensures DataLines(headers, prefix + [last], totals) ==
      DataLines(headers, prefix, totals) + (if IsEmpty(last) || IsTotalLine(headers, Fields(last), totals) then [] else [last])
    ensures TotalLines(headers, prefix + [last], totals) ==
      TotalLines(headers, prefix, totals) +
        (if !IsEmpty(last) && IsTotalLine(headers, Fields(last), totals) then [(Fields(last)[0], Fields(last)[1])] else [])
  {
    assert (prefix + [last])[..|prefix|] == prefix;
  }

  /** A total line assigns its name in place and leaves the rows alone. */
  lemma TotalStep(r: Report, headers: seq<string>, prefix: seq<string>, last: string, totals: bool)
    requires Describes(r, headers, prefix, totals)
    requires !IsEmpty(last) && IsTotalLine(headers, Fields(last), totals)
    ensures Describes(Put(r, Fields(last)[0], Fields(last)[1]), headers, prefix + [last], totals)
  {
    var lines := prefix + [last];
    var data := Fields(last);
    LinesSnoc(headers, prefix, last, totals);
    var rows := DataLines(headers, prefix, totals);
    assert DataLines(headers, lines, totals) == rows;
    var pairsBefore := TotalLines(headers, prefix, totals);
    var pairsAfter := pairsBefore + [(data[0], data[1])];
    assert TotalLines(headers, lines, totals) == pairsAfter;
    assert pairsAfter[..|pairsAfter| - 1] == pairsBefore;
    var r' := Put(r, data[0], data[1]);
    IndexedAssignName(r.entries, data[0], Total(data[1]));
    AssignDistinct(r.entries, Name(data[0]), Total(data[1]));
    assert Fits(headers, rows);
    assert Distinct(Keys(r'.entries));
    assert r'.nextIndex == |rows|;
    assert Indexed(r'.entries) == RowsOf(headers, rows);
    forall name
      ensures Lookup(r'.entries, Name(name)) == LastTotal(pairsAfter, name)
    {
      if name != data[0] {
        assert LastTotal(pairsAfter, name) == LastTotal(pairsBefore, name);
        assert Lookup(r'.entries, Name(name)) == Lookup(r.entries, Name(name));
      }
    }
  }

  lemma RowsOfSnoc(headers: seq<string>, data: seq<string>, last: string)
    requires Fits(headers, data) && |Fields(last)| == |headers|
    ensures Fits(headers, data + [last])
    ensures RowsOf(headers, data + [last]) == RowsOf(headers, data) + [(Index(|data|), Row(Combine(headers, Fields(last))))]
  {
    var all := data + [last];
    assert all[..|data|] == data;
  }

  /** A fresh integer key appended to distinct keys keeps them distinct, and hides no name. */
  lemma AppendIndex(es: seq<(Key, Entry)>, e: (Key, Entry))
    requires Distinct(Keys(es)) && e.0.Index?
    requires forall i :: 0 <= i < |Indexed(es)| ==> Indexed(es)[i].0 != e.0
    ensures Distinct(Keys(es + [e]))
    ensures forall name :: Lookup(es + [e], Name(name)) == Lookup(es, Name(name))
  {
    IndexedKeysBelow(es, e.0.n);
    assert Keys(es + [e]) == Keys(es) + [e.0];
    forall name
      ensures Lookup(es + [e], Name(name)) == Lookup(es, Name(name))
    {
      LookupAppend(es, e, Name(name));
    }
  }

  /** A row line appends one row under the next integer key. */
  lemma RowStep(r: Report, headers: seq<string>, prefix: seq<string>, last: string, totals: bool)
    requires Describes(r, headers, prefix, totals)
    requires !IsEmpty(last) && !IsTotalLine(headers, Fields(last), totals)
    requires |Fields(last)| == |headers|
    ensures Describes(Append(r, Combine(headers, Fields(last))), headers, prefix + [last], totals)
  {
    var lines := prefix + [last];
    LinesSnoc(headers, prefix, last, totals);
    var rowsBefore := DataLines(headers, prefix, totals);
    var rows := rowsBefore + [last];
    assert DataLines(headers, lines, totals) == rows;
    var e := (Index(r.nextIndex), Row(Combine(headers, Fields(last))));
    var r' := Append(r, Combine(headers, Fields(last)));
    assert r'.entries == r.entries + [e];
    RowsOfSnoc(headers, rowsBefore, last);
    AppendIndex(r.entries, e);
    IndexedAppend(r.entries, e);
    assert Fits(headers, rows);
    assert Distinct(Keys(r'.entries));
    assert r'.nextIndex == |rows|;
    assert Indexed(r'.entries) == RowsOf(headers, rows);
    var pairs := TotalLines(headers, prefix, totals);
    assert TotalLines(headers, lines, totals) == pairs;
    forall name
      ensures Lookup(r'.entries, Name(name)) == LastTotal(pairs, name)
    {
      assert Lookup(r'.entries, Name(name)) == Lookup(r.entries, Name(name));
    }
  }

  /** A line that is neither blank, a total, nor as wide as the header cannot fit. */
  lemma MismatchStep(headers: seq<string>, prefix: seq<string>, last: string, totals: bool)
    requires !IsEmpty(last) && !IsTotalLine(headers, Fields(last), totals)
    requires |Fields(last)| != |headers|
    ensures !Fits(headers, DataLines(headers, prefix + [last], totals))
  {
    var lines := prefix + [last];
    assert lines[..|lines| - 1] == prefix;
    var rowsBefore := DataLines(headers, prefix, totals);
    var rowsAfter := DataLines(headers, lines, totals);
    assert rowsAfter == rowsBefore + [last];
    assert rowsAfter[|rowsBefore|] == last;
  }

  /** Row lines only ever grow, so a line that did not fit keeps the decode from fitting. */
  lemma DataLinesGrow(headers: seq<string>, prefix: seq<string>, last: string, totals: bool)
    ensures !Fits(headers, DataLines(headers, prefix, totals)) ==>
      !Fits(headers, DataLines(headers, prefix + [last], totals))
  {
    var lines := prefix + [last];
    assert lines[..|lines| - 1] == prefix;
    var rowsBefore := DataLines(headers, prefix, totals);
    var rowsAfter := DataLines(headers, lines, totals);
    assert forall i :: 0 <= i < |rowsBefore| ==> rowsAfter[i] == rowsBefore[i];
  }

  /**
   * What a successful decode holds. It succeeds exactly when every row
   * line is as wide as the header. Its keys are distinct; its integer
   * keys are 0, 1, ... in line order, each holding the header combined
   * with one row line; each total name holds the amount of the last
   * line that named it.
   */
  lemma {:induction false} Decoded(headers: seq<string>, lines: seq<string>, totals: bool)
    ensures DecodeLines(headers, lines, totals).Ok? <==> Fits(headers, DataLines(headers, lines, totals))
    ensures DecodeLines(headers, lines, totals).Ok? ==> Describes(DecodeLines(headers, lines, totals).value, headers, lines, totals)
    decreases |lines|
  {
    if lines == [] {
      assert Describes(EmptyReport, headers, lines, totals);
    } else {
      var prefix, last := lines[..|lines| - 1], lines[|lines| - 1];
      assert lines == prefix + [last];
      Decoded(headers, prefix, totals);
      DecodeLinesSnoc(headers, prefix, last, totals);
      DataLinesGrow(headers, prefix, last, totals);
      var data := Fields(last);
      match DecodeLines(headers, prefix, totals)
      case Err(_) =>
      case Ok(r) => {
        assert Describes(r, headers, prefix, totals);
        if IsEmpty(last) {
          assert DecodeLines(headers, lines, totals) == Ok(r);
          assert DataLines(headers, lines, totals) == DataLines(headers, prefix, totals);
          assert TotalLines(headers, lines, totals) == TotalLines(headers, prefix, totals);
        } else if IsTotalLine(headers, data, totals) {
          assert DecodeLines(headers, lines, totals) == Ok(Put(r, data[0], data[1]));
          TotalStep(r, headers, prefix, last, totals);
        } else if |headers| != |data| {
          assert DecodeLines(headers, lines, totals).Err?;
          MismatchStep(headers, prefix, last, totals);
        } else {
          assert DecodeLines(headers, lines, totals) == Ok(Append(r, Combine(headers, data)));
          RowStep(r, headers, prefix, last, totals);
        }
      }
    }
  }

  // ---------------------------------------------------------------------
  // The table both report examples share
  // ---------------------------------------------------------------------

  const ExampleHeader: seq<string> := ["Header 1", "Header 2", "Header 3"]

  const ExampleRows: seq<seq<string>> := [["Foo", "Bar", "Foobar"], ["Fizz", "", "Fizzbuzz"], ["", "Test", "Tester"]]

  /** The rows the examples are expected to give, each name paired with its cell. */
  const ExampleEntries: seq<(Key, Entry)> := [
    (Index(0), Row([("Header 1", "Foo"), ("Header 2", "Bar"), ("Header 3", "Foobar")])),
    (Index(1), Row([("Header 1", "Fizz"), ("Header 2", ""), ("Header 3", "Fizzbuzz")])),
    (Index(2), Row([("Header 1", ""), ("Header 2", "Test"), ("Header 3", "Tester")]))]

  /** The example's header line, as the report text spells it. */
  lemma ExampleHeaderLine()
    ensures Implode('\t', ExampleHeader) == "Header 1\tHeader 2\tHeader 3"
  {
    ImplodeThree('\t', "Header 1", "Header 2", "Header 3");
  }

  /** The example's rows as lines, empty cells leaving two tabs side by side. */
  lemma ExampleRowLines()
    ensures EncodeRows(ExampleRows) == ["Foo\tBar\tFoobar", "Fizz\t\tFizzbuzz", "\tTest\tTester"]
  {
    var lines := EncodeRows(ExampleRows);
    ImplodeThree('\t', "Foo", "Bar", "Foobar");
    assert lines[0] == Implode('\t', ["Foo", "Bar", "Foobar"]);
    assert lines[0] == "Foo\tBar\tFoobar";
    ImplodeThree('\t', "Fizz", "", "Fizzbuzz");
    assert lines[1] == Implode('\t', ["Fizz", "", "Fizzbuzz"]);
    assert lines[1] == "Fizz\t\tFizzbuzz";
    ImplodeThree('\t', "", "Test", "Tester");
    assert lines[2] == Implode('\t', ["", "Test", "Tester"]);
    assert lines[2] == "\tTest\tTester";
  }

  lemma ExampleHeaderClean()
    ensures Distinct(ExampleHeader)
    ensures forall j :: 0 <= j < |ExampleHeader| ==> '\t' !in ExampleHeader[j] && '\n' !in ExampleHeader[j]
  {
  }

  lemma ExampleCellsClean()
    ensures forall i, j :: 0 <= i < |ExampleRows| && 0 <= j < |ExampleRows[i]| ==> '\t' !in ExampleRows[i][j] && '\n' !in ExampleRows[i][j]
  {
    var r := ExampleRows;
    assert forall j :: 0 <= j < 3 ==> '\t' !in r[0][j] && '\n' !in r[0][j];
    assert forall j :: 0 <= j < 3 ==> '\t' !in r[1][j] && '\n' !in r[1][j];
    assert forall j :: 0 <= j < 3 ==> '\t' !in r[2][j] && '\n' !in r[2][j];
  }

  lemma ExampleIsTable()
    ensures IsTable(ExampleHeader, ExampleRows)
  {
    var r := ExampleRows;
    ExampleHeaderClean();
    ExampleCellsClean();
    WideRowNotBlank(r[0]);
    WideRowNotBlank(r[1]);
    WideRowNotBlank(r[2]);
    assert forall i :: 0 <= i < |r| ==> |r[i]| == 3;
  }

  lemma ExampleRowEntries()
    ensures RowEntries(ExampleHeader, ExampleRows) == ExampleEntries
  {
    var h, r := ExampleHeader, ExampleRows;
    assert Zip(h, r[0]) == [(h[0], r[0][0]), (h[1], r[0][1]), (h[2], r[0][2])];
    assert Zip(h, r[1]) == [(h[0], r[1][0]), (h[1], r[1][1]), (h[2], r[1][2])];
    assert Zip(h, r[2]) == [(h[0], r[2][0]), (h[1], r[2][1]), (h[2], r[2][2])];
  }
}
