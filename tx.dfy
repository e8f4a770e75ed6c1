/**
 * src/tx.py: the row rules of `process_xlsx`. Each spreadsheet row is read
 * through the raw-then-normalised `get_col`; a row without a company is
 * skipped; the county becomes a note and the city the municipality. The
 * Texas data has no zip code and no notice kind.
 */
module Tx {
  import opened Wrappers
  import opened PyStr
  import opened Models
  import opened Columns
  import Utils

  const CompanyAliases: seq<string> := ["JOB_SITE_NAME", "Company", "Employer", "Company Name"]
  const CityAliases: seq<string> := ["CITY_NAME", "City", "Municipality"]
  const CountyAliases: seq<string> := ["COUNTY_NAME", "County"]
  const ImpactedAliases: seq<string> := ["TOTAL_LAYOFF_NUMBER", "No. of Employees", "Number of Employees"]

  /** The note on a record: the county, when one is given. */
  function CountyNote(county: Cell): (r: Option<string>)
    ensures r.Some? <==> Truthy(county)
    ensures r.Some? ==> StartsWith(r.value, "County: ") && r.value[|"County: "|..] == county.value
  {
    if Truthy(county) then Some("County: " + county.value) else None
  }

  /** The record one row of the spreadsheet at `url` yields, or none when the row has no company. */
  function RowRecord(row: Row, url: string): (r: Option<WarnRecord>)
    ensures r.None? <==> !Truthy(GetColValue(row, CompanyAliases, RawThenNormalised))
    ensures r.Some? ==> r.value.employer.name == Some(Strip(GetColValue(row, CompanyAliases, RawThenNormalised).value))
    ensures r.Some? ==> r.value.location.zip.None? && r.value.warnType.None? && r.value.location.state == Some("tx")
    ensures r.Some? ==> var city := GetColValue(row, CityAliases, RawThenNormalised);
      (Truthy(city) ==> r.value.location.municipality == Some(Strip(city.value))) &&
      (!Truthy(city) ==> r.value.location.municipality.None?)
    ensures r.Some? ==> var impacted := GetColValue(row, ImpactedAliases, RawThenNormalised);
      (Truthy(impacted) ==> r.value.impacted == Utils.CleanImpacted(impacted)) &&
      (!Truthy(impacted) ==> r.value.impacted.None?)
    ensures r.Some? ==> r.value.notes == CountyNote(GetColValue(row, CountyAliases, RawThenNormalised))
  {
    var company := GetColValue(row, CompanyAliases, RawThenNormalised);
    if !Truthy(company) then None
    else
      var city := GetColValue(row, CityAliases, RawThenNormalised);
      var impacted := GetColValue(row, ImpactedAliases, RawThenNormalised);
      Some(WarnRecord(
        Employee(Some(Strip(company.value)), None),
        Address(None, if Truthy(city) then Some(Strip(city.value)) else None, Some("tx"), None),
        None,
        None,
        if Truthy(impacted) then Utils.CleanImpacted(impacted) else None,
        CountyNote(GetColValue(row, CountyAliases, RawThenNormalised)),
        Some(url)))
  }

  /** The body of the row loop of `process_xlsx`: read the columns, skip a row without a company, set the note. */
  method ProcessRow(row: Row, url: string) returns (r: Option<WarnRecord>)
    ensures r == RowRecord(row, url)
  {
    var company := GetCol(row, CompanyAliases);
    var city := GetCol(row, CityAliases);
    var county := GetCol(row, CountyAliases);
    var impacted := GetCol(row, ImpactedAliases);
    if !Truthy(company) {
      return None;
    }
    var notes: Option<string> := None;
    if Truthy(county) {
      notes := Some("County: " + county.value);
    }
    var municipality := if Truthy(city) then Some(Strip(city.value)) else None;
    var count := if Truthy(impacted) then Utils.CleanImpacted(impacted) else None;
    r := Some(WarnRecord(
      Employee(Some(Strip(company.value)), None),
      Address(None, municipality, Some("tx"), None),
      None, None, count, notes, Some(url)));
  }

  /** The record rule for the rows of the spreadsheet at `url`. */
  function UrlRowRecord(url: string): Row -> Option<WarnRecord> {
    row => RowRecord(row, url)
  }

  /** The records of the spreadsheet's rows, in row order, rows without a company left out. */
  function Records(rows: seq<Row>, url: string): seq<WarnRecord> {
    Collect(UrlRowRecord(url), rows)
  }

  /** The row loop of `process_xlsx`, appending each row's record. */
  method ProcessRows(rows: seq<Row>, url: string) returns (results: seq<WarnRecord>)
    ensures results == Records(rows, url)
  {
    results := [];
    for i := 0 to |rows|
      invariant results == Records(rows[..i], url)
    {
      assert rows[..i + 1][..i] == rows[..i];
      var rec := ProcessRow(rows[i], url);
      if rec.Some? {
        results := results + [rec.value];
      }
    }
    assert rows[..|rows|] == rows;
  }

  // ---------------------------------------------------------------- properties

  /**
   * A row whose "County" column holds `c` gets the note "County: " + `c`
   * when it has a company, even where other columns are named "County" too.
   */
  lemma CountyColumnNote(row: Row, url: string, i: nat)
    requires i < |row| && row[i].0 == "COUNTY_NAME" && Truthy(row[i].1)
    requires forall j :: 0 <= j < i ==> row[j].0 != "COUNTY_NAME"
    requires Truthy(GetColValue(row, CompanyAliases, RawThenNormalised))
    ensures RowRecord(row, url).Some? && RowRecord(row, url).value.notes == Some("County: " + row[i].1.value)
  {
    assert FirstKey(row, RawEquals("COUNTY_NAME")) == Some(i);
    AliasOrderDecides(row, CountyAliases, RawThenNormalised, 0);
  }

  /** Records keep row order: the records of two runs of rows are those of each, one after the other. */
  lemma RecordsConcat(a: seq<Row>, b: seq<Row>, url: string)
    ensures Records(a + b, url) == Records(a, url) + Records(b, url)
  {
    CollectConcat(UrlRowRecord(url), a, b);
  }

  /** Every record links to its spreadsheet, is in Texas, has no zip code and no notice kind, and comes from a row with a company. */
  lemma RecordsShape(rows: seq<Row>, url: string, k: nat)
    requires k < |Records(rows, url)|
    ensures var rec := Records(rows, url)[k];
      rec.link == Some(url) && rec.location.state == Some("tx") && rec.location.zip.None? && rec.warnType.None? &&
      exists i :: 0 <= i < |rows| && RowRecord(rows[i], url) == Some(rec)
  {
    CollectOrigin(UrlRowRecord(url), rows, k);
  }
}
