/**
 * src/ri.py: the row rules of `scrape_ri`. Each spreadsheet row is read
 * through the "company" fallback variant of `get_col`; a row without a
 * company is skipped; the notice kind comes from the "Closing Yes/No"
 * column and a union contact from the "Union Yes/No" and "Union Address"
 * columns.
 */
module Ri {
  import opened Wrappers
  import opened PyStr
  import opened Models
  import opened Columns
  import Ca
  import Utils

  /** The spreadsheet's address, which every record links to. */
  const Url: string := "https://dlt.ri.gov/media/15796/download?language=en"

  const CompanyAliases: seq<string> := ["Company Name", "Company"]
  const LocationAliases: seq<string> := ["Location", "Location of Layoffs"]
  const AffectedAliases: seq<string> := ["Number Affected", "Affected"]
  const ClosingAliases: seq<string> := ["Closing Yes/No"]
  const UnionFlagAliases: seq<string> := ["Union Yes/No"]
  const UnionAddressAliases: seq<string> := ["Union Address"]

  /**
   * `src.utils.parse_address(text, state_fips='44')`. That resolver is not
   * part of this model: it is a parameter, returning the street,
   * municipality and zip code it finds.
   */
  type Resolver = string -> Ca.ParsedAddress

  /** A present cell whose text, lower-cased and trimmed, is `word`. */
  predicate SaysWord(c: Cell, word: string) {
    Truthy(c) && Strip(Lower(c.value)) == word
  }

  /** The notice kind: "yes" in the closing column is a closure, "no" a permanent layoff, anything else temporary. */
  function ClosingType(closing: Cell): (r: WarnType)
    ensures r == Closure <==> SaysWord(closing, "yes")
    ensures r == PermanentLayoff <==> SaysWord(closing, "no")
    ensures r == TemporaryLayoff <==> !SaysWord(closing, "yes") && !SaysWord(closing, "no")
  {
    if SaysWord(closing, "yes") then Closure
    else if SaysWord(closing, "no") then PermanentLayoff
    else TemporaryLayoff
  }

  /** The union contact: only when the union flag says "yes"; always named "Union"; with an address only when one is given. */
  function UnionOf(flag: Cell, unionAddress: Cell, resolve: Resolver): (r: Option<Employee>)
    ensures r.Some? <==> SaysWord(flag, "yes")
    ensures r.Some? ==> r.value.name == Some("Union")
    ensures r.Some? ==> (r.value.address.Some? <==> Truthy(unionAddress))
    ensures r.Some? && r.value.address.Some? ==>
      var p := resolve(unionAddress.value);
      r.value.address.value == Address(p.street, p.municipality, Some("RI"), p.zip)
  {
    if SaysWord(flag, "yes") then
      var addr := if Truthy(unionAddress) then
          var p := resolve(unionAddress.value);
          Some(Address(p.street, p.municipality, Some("RI"), p.zip))
        else None;
      Some(Employee(Some("Union"), addr))
    else None
  }

  /** The record one row yields, or none when the row has no company. */
  function RowRecord(row: Row, sheet: string, resolve: Resolver): (r: Option<WarnRecord>)
    ensures r.None? <==> !Truthy(GetColValue(row, CompanyAliases, CompanyFallback))
    ensures r.Some? ==> r.value.employer.name == Some(Strip(GetColValue(row, CompanyAliases, CompanyFallback).value))
    ensures r.Some? ==> r.value.location.state == Some("RI") && r.value.location.street.None? && r.value.location.zip.None?
    ensures r.Some? ==> r.value.notes == Some("Sheet: " + sheet) && r.value.link == Some(Url)
    ensures r.Some? ==> r.value.warnType == Some(ClosingType(GetColValue(row, ClosingAliases, CompanyFallback)))
    ensures r.Some? ==> r.value.impacted == Utils.CleanImpacted(GetColValue(row, AffectedAliases, CompanyFallback))
    ensures r.Some? ==> var location := GetColValue(row, LocationAliases, CompanyFallback);
      (Truthy(location) ==> r.value.location.municipality == Some(Strip(location.value))) &&
      (!Truthy(location) ==> r.value.location.municipality.None?)
    ensures r.Some? ==>
      r.value.union == UnionOf(GetColValue(row, UnionFlagAliases, CompanyFallback), GetColValue(row, UnionAddressAliases, CompanyFallback), resolve)
  {
    var company := GetColValue(row, CompanyAliases, CompanyFallback);
    if !Truthy(company) then None
    else
      var location := GetColValue(row, LocationAliases, CompanyFallback);
      Some(WarnRecord(
        Employee(Some(Strip(company.value)), None),
        Address(None, if Truthy(location) then Some(Strip(location.value)) else None, Some("RI"), None),
        UnionOf(GetColValue(row, UnionFlagAliases, CompanyFallback), GetColValue(row, UnionAddressAliases, CompanyFallback), resolve),
        Some(ClosingType(GetColValue(row, ClosingAliases, CompanyFallback))),
        Utils.CleanImpacted(GetColValue(row, AffectedAliases, CompanyFallback)),
        Some("Sheet: " + sheet),
        Some(Url)))
  }

  /**
   * The body of the row loop of `scrape_ri`: read the columns, skip a row
   * without a company, then set the notice kind and the union contact by
   * successive reassignments.
   */
  method ScrapeRow(row: Row, sheet: string, resolve: Resolver) returns (r: Option<WarnRecord>)
    ensures r == RowRecord(row, sheet, resolve)
  {
    var company := GetColCompany(row, CompanyAliases);
    var location := GetColCompany(row, LocationAliases);
    var affected := GetColCompany(row, AffectedAliases);
    var closing := GetColCompany(row, ClosingAliases);
    var unionFlag := GetColCompany(row, UnionFlagAliases);
    var unionAddress := GetColCompany(row, UnionAddressAliases);
    if !Truthy(company) {
      return None;
    }
    var warnType := TemporaryLayoff;
    if Truthy(closing) && Strip(Lower(closing.value)) == "yes" {
      warnType := Closure;
    } else if Truthy(closing) && Strip(Lower(closing.value)) == "no" {
      warnType := PermanentLayoff;
    }
    var union: Option<Employee> := None;
    if Truthy(unionFlag) && Strip(Lower(unionFlag.value)) == "yes" {
      var addr: Option<Address> := None;
      if Truthy(unionAddress) {
        var parsed := resolve(unionAddress.value);
        addr := Some(Address(parsed.street, parsed.municipality, Some("RI"), parsed.zip));
      }
      union := Some(Employee(Some("Union"), addr));
    }
    var municipality := if Truthy(location) then Some(Strip(location.value)) else None;
    r := Some(WarnRecord(
      Employee(Some(Strip(company.value)), None),
      Address(None, municipality, Some("RI"), None),
      union, Some(warnType), Utils.CleanImpacted(affected), Some("Sheet: " + sheet), Some(Url)));
  }

  /** The record rule for the rows of one sheet. */
  function SheetRowRecord(sheet: string, resolve: Resolver): Row -> Option<WarnRecord> {
    row => RowRecord(row, sheet, resolve)
  }

  /** The records of a sheet's rows, in row order, rows without a company left out. */
  function SheetRecords(rows: seq<Row>, sheet: string, resolve: Resolver): seq<WarnRecord> {
    Collect(SheetRowRecord(sheet, resolve), rows)
  }

  /** The row loop of `scrape_ri` for one sheet, appending each row's record. */
  method ScrapeSheet(rows: seq<Row>, sheet: string, resolve: Resolver) returns (records: seq<WarnRecord>)
    ensures records == SheetRecords(rows, sheet, resolve)
  {
    records := [];
    for i := 0 to |rows|
      invariant records == SheetRecords(rows[..i], sheet, resolve)
    {
      assert rows[..i + 1][..i] == rows[..i];
      var rec := ScrapeRow(rows[i], sheet, resolve);
      if rec.Some? {
        records := records + [rec.value];
      }
    }
    assert rows[..|rows|] == rows;
  }

  // ---------------------------------------------------------------- properties

  /** The closing column is read without regard to letter case. */
  lemma ClosingCaseInsensitive(s: string)
    ensures ClosingType(Some(Upper(s))) == ClosingType(Some(s))
  {
    Utils.LowerUpper(s);
  }

  /** Records keep row order: the records of two runs of rows are those of each, one after the other. */
  lemma SheetRecordsConcat(a: seq<Row>, b: seq<Row>, sheet: string, resolve: Resolver)
    ensures SheetRecords(a + b, sheet, resolve) == SheetRecords(a, sheet, resolve) + SheetRecords(b, sheet, resolve)
  {
    CollectConcat(SheetRowRecord(sheet, resolve), a, b);
  }

  /** Every record of a sheet names its sheet, is in Rhode Island, links to the spreadsheet and comes from a row with a company. */
  lemma SheetRecordsShape(rows: seq<Row>, sheet: string, resolve: Resolver, k: nat)
    requires k < |SheetRecords(rows, sheet, resolve)|
    ensures var rec := SheetRecords(rows, sheet, resolve)[k];
      rec.notes == Some("Sheet: " + sheet) && rec.location.state == Some("RI") && rec.link == Some(Url) &&
      exists i :: 0 <= i < |rows| && RowRecord(rows[i], sheet, resolve) == Some(rec)
  {
    CollectOrigin(SheetRowRecord(sheet, resolve), rows, k);
  }

  /** A row without a company adds nothing to the sheet's records. */
  lemma SkippedRowAddsNothing(rows: seq<Row>, row: Row, sheet: string, resolve: Resolver)
    requires !Truthy(GetColValue(row, CompanyAliases, CompanyFallback))
    ensures SheetRecords(rows + [row], sheet, resolve) == SheetRecords(rows, sheet, resolve)
  {
    assert (rows + [row])[..|rows|] == rows;
  }
}
