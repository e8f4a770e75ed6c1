/**
 * The record shapes every scraper fills (`WarnType`, `Address`, `Employee`,
 * `WarnRecord`), and the cell values the scrapers read out of spreadsheet
 * rows and PDF tables.
 */
module Models {
  import opened Wrappers

  /** The three notice kinds; their serialised names are "Closure", "PermanentLayoff", "TemporaryLayoff". */
  datatype WarnType = Closure | PermanentLayoff | TemporaryLayoff

  datatype Address = Address(
    street: Option<string>,
    municipality: Option<string>,
    state: Option<string>,
    zip: Option<string>)

  datatype Employee = Employee(name: Option<string>, address: Option<Address>)

  /**
   * A WARN notice. The warn and layoff dates and the contact are not part
   * of this model (date parsing is library format handling).
   */
  datatype WarnRecord = WarnRecord(
    employer: Employee,
    location: Address,
    union: Option<Employee>,
    warnType: Option<WarnType>,
    impacted: Option<nat>,
    notes: Option<string>,
    link: Option<string>)

  /**
   * A cell of a spreadsheet row or of a PDF table: `None` stands for
   * Python's `None` and for pandas' NaN (everything `pd.isna` accepts).
   */
  type Cell = Option<string>

  /** `bool(c) and not pd.isna(c)`: present and non-empty. */
  predicate Truthy(c: Cell) {
    c.Some? && c.value != ""
  }

  /** `str(c)` for a PDF cell, where a missing cell is Python's `None`. */
  function StrOf(c: Cell): string {
    match c
    case None => "None"
    case Some(s) => s
  }

  /**
   * The records a run of rows yields, in row order: each row's record, the
   * rows that yield none left out (the row loops that append to a list).
   */
  function Collect<T>(rowRecord: T -> Option<WarnRecord>, rows: seq<T>): (r: seq<WarnRecord>)
    ensures |r| <= |rows|
  {
    if rows == [] then []
    else
      var n := |rows| - 1;
      var rec := rowRecord(rows[n]);
      Collect(rowRecord, rows[..n]) + (if rec.Some? then [rec.value] else [])
  }

  /** Records keep row order: those of two runs of rows are those of each, one after the other. */
  lemma {:induction false} CollectConcat<T>(rowRecord: T -> Option<WarnRecord>, a: seq<T>, b: seq<T>)
    ensures Collect(rowRecord, a + b) == Collect(rowRecord, a) + Collect(rowRecord, b)
  {
    if b == [] {
      assert a + b == a;
    } else {
      var n := |b| - 1;
      CollectConcat(rowRecord, a, b[..n]);
      assert (a + b)[..|a + b| - 1] == a + b[..n];
      assert (a + b)[|a + b| - 1] == b[n];
    }
  }

  /** Every collected record is the record of some row. */
  lemma {:induction false} CollectOrigin<T>(rowRecord: T -> Option<WarnRecord>, rows: seq<T>, k: nat)
    requires k < |Collect(rowRecord, rows)|
    ensures exists i :: 0 <= i < |rows| && rowRecord(rows[i]) == Some(Collect(rowRecord, rows)[k])
  {
    var n := |rows| - 1;
    var init := Collect(rowRecord, rows[..n]);
    if k < |init| {
      CollectOrigin(rowRecord, rows[..n], k);
      var i :| 0 <= i < n && rowRecord(rows[..n][i]) == Some(init[k]);
      assert rows[..n][i] == rows[i];
    } else {
      assert rowRecord(rows[n]) == Some(Collect(rowRecord, rows)[k]);
    }
  }
}
