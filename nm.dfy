/**
 * src/nm.py: reading one PDF table in `_parse_pdf`. The header row is the
 * first row whose text names both "NOTICE DATE" and "JOB SITE NAME"; its
 * cells are classified into a header map; every later row with a company
 * cell becomes a record.
 */
module Nm {
  import opened Wrappers
  import opened PyStr
  import opened Models
  import Columns
  import Utils

  /** A PDF table: rows of cells, `None` for an empty cell. */
  type Table = seq<seq<Cell>>

  // ---------------------------------------------------------------- header row

  /** The texts of the row's non-empty cells, newlines turned into spaces. */
  function CellTexts(row: seq<Cell>): (r: seq<string>)
    ensures |r| <= |row|
  {
    if row == [] then []
    else
      var rest := CellTexts(row[1..]);
      if Truthy(row[0]) then [ReplaceChar(row[0].value, '\n', ' ')] + rest else rest
  }

  /** The texts of `a + b`'s cells are those of `a`'s cells, then those of `b`'s. */
  lemma {:induction false} CellTextsConcat(a: seq<Cell>, b: seq<Cell>)
    ensures CellTexts(a + b) == CellTexts(a) + CellTexts(b)
  {
    if a == [] {
      assert a + b == b;
    } else {
      assert (a + b)[0] == a[0];
      assert (a + b)[1..] == a[1..] + b;
      CellTextsConcat(a[1..], b);
    }
  }

  /** A cell gives its text, newlines as spaces, exactly when it is present and non-empty. */
  lemma CellTextsOne(c: Cell)
    ensures CellTexts([c]) == if Truthy(c) then [ReplaceChar(c.value, '\n', ' ')] else []
  {
    assert [c][1..] == [];
  }

  /** The row's text as searched: its non-empty cells joined by spaces, upper-cased. */
  function RowText(row: seq<Cell>): string {
    Upper(Join(CellTexts(row), " "))
  }

  /** A row whose text names both the notice date and the job site name columns. */
  predicate IsHeaderRow(row: seq<Cell>) {
    IsHeaderText(RowText(row))
  }

  /** A text naming both the notice date and the job site name columns. */
  predicate IsHeaderText(t: string) {
    Contains(t, "NOTICE DATE") && Contains(t, "JOB SITE NAME")
  }

  /** The first element at or after `from` that satisfies `p`. */
  function FirstWhereFrom<T>(p: T -> bool, xs: seq<T>, from: nat): (r: Option<nat>)
    requires from <= |xs|
    decreases |xs| - from
    ensures r.Some? ==> from <= r.value < |xs| && p(xs[r.value])
    ensures r.Some? ==> forall j :: from <= j < r.value ==> !p(xs[j])
    ensures r.None? ==> forall j :: from <= j < |xs| ==> !p(xs[j])
  {
    if from == |xs| then None
    else if p(xs[from]) then Some(from)
    else FirstWhereFrom(p, xs, from + 1)
  }

  /** The index of the first header row, none when no row qualifies. */
  function HeaderRow(table: Table): Option<nat> {
    FirstWhereFrom(IsHeaderRow, table, 0)
  }

  /** The first element satisfying `p` is at `i` when `xs[i]` does and none before it does. */
  lemma FirstWhereAt<T>(p: T -> bool, xs: seq<T>, i: nat)
    requires i < |xs| && p(xs[i])
    requires forall j :: 0 <= j < i ==> !p(xs[j])
    ensures FirstWhereFrom(p, xs, 0) == Some(i)
  {
  }

  /** The header search of `_parse_pdf`: rows in order, stopping at the first header row. */
  method FindHeaderRow(table: Table) returns (idx: Option<nat>)
    ensures idx == HeaderRow(table)
  {
    idx := None;
    for i := 0 to |table|
      invariant forall j :: 0 <= j < i ==> !IsHeaderRow(table[j])
    {
      var rowStr := RowText(table[i]);
      if IsHeaderText(rowStr) {
        FirstWhereAt(IsHeaderRow, table, i);
        return Some(i);
      }
    }
  }

  // ---------------------------------------------------------------- header map

  /** The fields `_parse_pdf` reads. */
  datatype NmField = WarnDate | Company | Impacted | LayoffDate | City

  /** A header cell's text as compared: newlines as spaces, trimmed, upper-cased. */
  function HeaderText(s: string): string {
    Upper(Strip(ReplaceChar(s, '\n', ' ')))
  }

  /** The field a header cell names, by the first keyword it holds; none for an empty cell. */
  function HeaderField(cell: Cell): Option<NmField> {
    if !Truthy(cell) then None
    else
      var text := HeaderText(cell.value);
      if Contains(text, "NOTICE DATE") then Some(WarnDate)
      else if Contains(text, "JOB SITE NAME") then Some(Company)
      else if Contains(text, "TOTAL LAYOFF") then Some(Impacted)
      else if Contains(text, "LAYOFF DATE") then Some(LayoffDate)
      else if Contains(text, "CITY NAME") then Some(City)
      else None
  }

  /**
   * An empty cell names no field. Otherwise the tests are tried in `elif`
   * order: "NOTICE DATE", then "JOB SITE NAME", then "TOTAL LAYOFF", then
   * "LAYOFF DATE", then "CITY NAME"; so a "TOTAL LAYOFF DATE" header is
   * the impacted count, not the layoff date.
   */
  lemma HeaderFieldPrecedence(cell: Cell)
    ensures !Truthy(cell) ==> HeaderField(cell).None?
    ensures Truthy(cell) ==> var t := HeaderText(cell.value);
      (HeaderField(cell) == Some(WarnDate) <==> Contains(t, "NOTICE DATE")) &&
      (HeaderField(cell) == Some(Company) <==> !Contains(t, "NOTICE DATE") && Contains(t, "JOB SITE NAME")) &&
      (HeaderField(cell) == Some(Impacted) <==>
         !Contains(t, "NOTICE DATE") && !Contains(t, "JOB SITE NAME") && Contains(t, "TOTAL LAYOFF")) &&
      (HeaderField(cell) == Some(LayoffDate) <==>
         !Contains(t, "NOTICE DATE") && !Contains(t, "JOB SITE NAME") && !Contains(t, "TOTAL LAYOFF") &&
         Contains(t, "LAYOFF DATE")) &&
      (HeaderField(cell) == Some(City) <==>
         !Contains(t, "NOTICE DATE") && !Contains(t, "JOB SITE NAME") && !Contains(t, "TOTAL LAYOFF") &&
         !Contains(t, "LAYOFF DATE") && Contains(t, "CITY NAME"))
  {
  }

  /** `header_map`: each field to the last header cell naming it. */
  function HeaderMap(header: seq<Cell>): map<NmField, nat> {
    Columns.FieldColumns(Columns.Classified(header, HeaderField))
  }

  /** The header loop of `_parse_pdf`, skipping empty cells and filling `header_map` column by column. */
  method BuildHeaderMap(header: seq<Cell>) returns (m: map<NmField, nat>)
    ensures m == HeaderMap(header)
  {
    var fields := Columns.Classified(header, HeaderField);
    m := map[];
    for idx := 0 to |header|
      invariant m == Columns.FieldColumns(fields[..idx])
    {
      Columns.FieldColumnsSnoc(fields, idx);
      assert fields[idx] == HeaderField(header[idx]);
      if !Truthy(header[idx]) {
        continue;
      }
      var text := HeaderText(header[idx].value);
      if Contains(text, "NOTICE DATE") {
        m := m[WarnDate := idx];
      } else if Contains(text, "JOB SITE NAME") {
        m := m[Company := idx];
      } else if Contains(text, "TOTAL LAYOFF") {
        m := m[Impacted := idx];
      } else if Contains(text, "LAYOFF DATE") {
        m := m[LayoffDate := idx];
      } else if Contains(text, "CITY NAME") {
        m := m[City := idx];
      }
    }
    assert fields[..|header|] == fields;
  }

  /** `_get(key)`: the cell of a mapped field, none when the field is unmapped or the row too short for it. */
  function Get(m: map<NmField, nat>, row: seq<Cell>, f: NmField): (r: Cell)
    ensures r.Some? ==> f in m && m[f] < |row| && r == row[m[f]]
    ensures f in m && m[f] < |row| ==> r == row[m[f]]
  {
    if f in m && m[f] < |row| then row[m[f]] else None
  }

  // ---------------------------------------------------------------- records

  /** The record a data row yields, or none for an empty row or one without a company. */
  function RowRecord(m: map<NmField, nat>, row: seq<Cell>, url: string): (r: Option<WarnRecord>)
    ensures r.Some? <==> row != [] && Truthy(Get(m, row, Company))
    ensures r.Some? ==> r.value.employer.name == Some(Strip(Get(m, row, Company).value))
    ensures r.Some? ==> r.value.location.state == Some("nm") && r.value.link == Some(url)
    ensures r.Some? ==> var city := Get(m, row, City);
      (Truthy(city) ==> r.value.location.municipality == Some(Strip(city.value))) &&
      (!Truthy(city) ==> r.value.location.municipality.None?)
    ensures r.Some? ==> var impacted := Get(m, row, Impacted);
      (Truthy(impacted) ==> r.value.impacted == Utils.CleanImpacted(impacted)) &&
      (!Truthy(impacted) ==> r.value.impacted.None?)
  {
    if row == [] then None
    else
      var company := Get(m, row, Company);
      if !Truthy(company) then None
      else
        var city := Get(m, row, City);
        var impacted := Get(m, row, Impacted);
        Some(WarnRecord(
          Employee(Some(Strip(company.value)), None),
          Address(None, if Truthy(city) then Some(Strip(city.value)) else None, Some("nm"), None),
          None,
          None,
          if Truthy(impacted) then Utils.CleanImpacted(impacted) else None,
          None,
          Some(url)))
  }

  /** The record rule for the data rows under header map `m`. */
  function MappedRowRecord(m: map<NmField, nat>, url: string): seq<Cell> -> Option<WarnRecord> {
    row => RowRecord(m, row, url)
  }

  /** The records of the data rows, in order. */
  function RowsRecords(m: map<NmField, nat>, rows: seq<seq<Cell>>, url: string): seq<WarnRecord> {
    Collect(MappedRowRecord(m, url), rows)
  }

  /** The records of one table: none for a table under two rows or without a header row; else those of the rows after the header. */
  function TableRecords(table: Table, url: string): (r: seq<WarnRecord>)
    ensures |table| < 2 || HeaderRow(table).None? ==> r == []
    ensures |r| < |table| || r == []
  {
    if |table| < 2 then []
    else
      var h := HeaderRow(table);
      if h.None? then []
      else RowsRecords(HeaderMap(table[h.value]), table[h.value + 1..], url)
  }

  /** The table body of `_parse_pdf`: skip a short table, find the header row, build the header map, then read the rows after it. */
  method ParseTable(table: Table, url: string) returns (records: seq<WarnRecord>)
    ensures records == TableRecords(table, url)
  {
    records := [];
    if |table| < 2 {
      return;
    }
    var h := FindHeaderRow(table);
    if h.None? {
      return;
    }
    var m := BuildHeaderMap(table[h.value]);
    var rows := table[h.value + 1..];
    for i := 0 to |rows|
      invariant records == RowsRecords(m, rows[..i], url)
    {
      assert rows[..i + 1][..i] == rows[..i];
      var row := rows[i];
      if row == [] {
        continue;
      }
      var company := Get(m, row, Company);
      if !Truthy(company) {
        continue;
      }
      var city := Get(m, row, City);
      var impacted := Get(m, row, Impacted);
      var record := WarnRecord(
        Employee(Some(Strip(company.value)), None),
        Address(None, if Truthy(city) then Some(Strip(city.value)) else None, Some("nm"), None),
        None, None,
        if Truthy(impacted) then Utils.CleanImpacted(impacted) else None,
        None, Some(url));
      records := records + [record];
    }
    assert rows[..|rows|] == rows;
  }

  // ---------------------------------------------------------------- properties

  /**
   * Rows above the header row are ignored: putting rows that are not
   * header rows in front of a table with a header row leaves its records
   * unchanged.
   */
  lemma PreambleIgnored(pre: Table, table: Table, url: string)
    requires forall j :: 0 <= j < |pre| ==> !IsHeaderRow(pre[j])
    requires HeaderRow(table).Some?
    ensures TableRecords(pre + table, url) == TableRecords(table, url)
  {
    var h := HeaderRow(table).value;
    var t := pre + table;
    FirstWhereShift(IsHeaderRow, pre, table);
    assert t[|pre| + h] == table[h];
    assert t[|pre| + h + 1..] == table[h + 1..];
    RecordsFromHeader(t, url, |pre| + h);
    RecordsFromHeader(table, url, h);
  }

  /** A table's records are those of the rows after its header row, read through that row's header map. */
  lemma RecordsFromHeader(table: Table, url: string, h: nat)
    requires HeaderRow(table) == Some(h)
    ensures TableRecords(table, url) == RowsRecords(HeaderMap(table[h]), table[h + 1..], url)
  {
    if |table| < 2 {
      assert table[h + 1..] == [];
    }
  }

  /** Elements not satisfying `p` put in front move the first one that does down by their number. */
  lemma FirstWhereShift<T>(p: T -> bool, pre: seq<T>, xs: seq<T>)
    requires forall j :: 0 <= j < |pre| ==> !p(pre[j])
    requires FirstWhereFrom(p, xs, 0).Some?
    ensures FirstWhereFrom(p, pre + xs, 0) == Some(|pre| + FirstWhereFrom(p, xs, 0).value)
  {
    var h := FirstWhereFrom(p, xs, 0).value;
    var t := pre + xs;
    forall j | 0 <= j < |pre| + h ensures !p(t[j]) {
      if j < |pre| {
        assert t[j] == pre[j];
      } else {
        assert t[j] == xs[j - |pre|];
      }
    }
    assert t[|pre| + h] == xs[h];
    FirstWhereAt(p, t, |pre| + h);
  }

  /** Records keep row order: the records of two runs of data rows are those of each, one after the other. */
  lemma RowsRecordsConcat(m: map<NmField, nat>, a: seq<seq<Cell>>, b: seq<seq<Cell>>, url: string)
    ensures RowsRecords(m, a + b, url) == RowsRecords(m, a, url) + RowsRecords(m, b, url)
  {
    CollectConcat(MappedRowRecord(m, url), a, b);
  }

  /** Every record names an employer, is in New Mexico, links to its source and comes from a data row with a company. */
  lemma RowsRecordsShape(m: map<NmField, nat>, rows: seq<seq<Cell>>, url: string, k: nat)
    requires k < |RowsRecords(m, rows, url)|
    ensures var rec := RowsRecords(m, rows, url)[k];
      rec.employer.name.Some? && rec.location.state == Some("nm") && rec.link == Some(url) &&
      exists i :: 0 <= i < |rows| && RowRecord(m, rows[i], url) == Some(rec)
  {
    CollectOrigin(MappedRowRecord(m, url), rows, k);
  }
}
