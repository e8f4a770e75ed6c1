/**
 * `get_col`: reading one field of a spreadsheet row by trying a list of
 * column-name aliases in order. A row (`row.to_dict()`) is an association
 * list in column order. Two variants exist: the one in src/ca.py (repeated
 * verbatim in src/tx.py), which tries the raw column name before normalised
 * names, and the one in src/ri.py, which compares normalised names only and
 * falls back to any column mentioning "company" for company aliases.
 */
module Columns {
  import opened Wrappers
  import opened PyStr
  import opened Models

  /** A spreadsheet row: (column name, cell) pairs in column order. */
  type Row = seq<(string, Cell)>

  /** `str(k).replace('\n', ' ').strip().lower()`. */
  function NormKey(k: string): string {
    Lower(Strip(ReplaceChar(k, '\n', ' ')))
  }

  /** How a column name is compared against an alias. */
  datatype KeyTest =
    | RawEquals(key: string)          // `alias in row`
    | NormEquals(target: string)      // normalised name equals the lower-cased alias
    | NormContains(fragment: string)  // normalised name contains a fragment

  predicate Passes(k: string, t: KeyTest) {
    match t
    case RawEquals(x) => k == x
    case NormEquals(x) => NormKey(k) == x
    case NormContains(x) => Contains(NormKey(k), x)
  }

  /** The first column, at or after `from`, whose name passes the test. */
  function FirstKeyFrom(row: Row, t: KeyTest, from: nat): (r: Option<nat>)
    requires from <= |row|
    decreases |row| - from
    ensures r.Some? ==> from <= r.value < |row| && Passes(row[r.value].0, t)
    ensures r.Some? ==> forall j :: from <= j < r.value ==> !Passes(row[j].0, t)
    ensures r.None? ==> forall j :: from <= j < |row| ==> !Passes(row[j].0, t)
  {
    if from == |row| then None
    else if Passes(row[from].0, t) then Some(from)
    else FirstKeyFrom(row, t, from + 1)
  }

  /** The first column, in row order, whose name passes the test. */
  function FirstKey(row: Row, t: KeyTest): (r: Option<nat>)
    ensures r.Some? ==> r.value < |row| && Passes(row[r.value].0, t)
    ensures r.Some? ==> forall j :: 0 <= j < r.value ==> !Passes(row[j].0, t)
    ensures r.None? ==> forall j :: 0 <= j < |row| ==> !Passes(row[j].0, t)
  {
    FirstKeyFrom(row, t, 0)
  }

  /** Which `get_col` is meant. */
  datatype Variant =
    | RawThenNormalised  // src/ca.py and src/tx.py
    | CompanyFallback    // src/ri.py

  /** The column one alias selects by itself, or none. */
  function AliasColumn(row: Row, alias: string, v: Variant): Option<nat> {
    match v
    case RawThenNormalised =>
      var raw := FirstKey(row, RawEquals(alias));
      if raw.Some? then raw else FirstKey(row, NormEquals(Lower(alias)))
    case CompanyFallback =>
      var exact := FirstKey(row, NormEquals(Lower(alias)));
      if exact.Some? then exact
      else if Contains(Lower(alias), "company") then FirstKey(row, NormContains("company"))
      else None
  }

  /** The first alias, in the order given, that selects a column. */
  function FirstMatchingAlias(row: Row, aliases: seq<string>, v: Variant): (r: Option<nat>)
    ensures r.Some? ==> r.value < |aliases| && AliasColumn(row, aliases[r.value], v).Some?
    ensures r.Some? ==> forall b :: 0 <= b < r.value ==> AliasColumn(row, aliases[b], v).None?
    ensures r.None? ==> forall b :: 0 <= b < |aliases| ==> AliasColumn(row, aliases[b], v).None?
  {
    if aliases == [] then None
    else if AliasColumn(row, aliases[0], v).Some? then Some(0)
    else
      var rest := FirstMatchingAlias(row, aliases[1..], v);
      if rest.Some? then Some(rest.value + 1) else None
  }

  /** The column `get_col` reads, or none when no alias matches. */
  function ColumnIndex(row: Row, aliases: seq<string>, v: Variant): (r: Option<nat>)
    ensures r.Some? ==> r.value < |row|
    ensures r.None? <==> forall b :: 0 <= b < |aliases| ==> AliasColumn(row, aliases[b], v).None?
  {
    var a := FirstMatchingAlias(row, aliases, v);
    if a.Some? then AliasColumn(row, aliases[a.value], v) else None
  }

  /** The cell at a column index, Python's `None` when there is none. */
  function ValueAt(row: Row, idx: Option<nat>): Cell
    requires idx.Some? ==> idx.value < |row|
  {
    if idx.Some? then row[idx.value].1 else None
  }

  /** What `get_col(row, aliases)` returns. */
  function GetColValue(row: Row, aliases: seq<string>, v: Variant): Cell {
    ValueAt(row, ColumnIndex(row, aliases, v))
  }

  /**
   * `get_col` of src/ca.py and src/tx.py: aliases in order; for each, the
   * raw column name first, then every column whose normalised name equals
   * the lower-cased alias, in row order.
   */
  method GetCol(row: Row, aliases: seq<string>) returns (c: Cell)
    ensures c == GetColValue(row, aliases, RawThenNormalised)
  {
    for a := 0 to |aliases|
      invariant forall b :: 0 <= b < a ==> AliasColumn(row, aliases[b], RawThenNormalised).None?
    {
      var alias := aliases[a];
      var raw := FirstKey(row, RawEquals(alias));
      if raw.Some? {
        assert GetColValue(row, aliases, RawThenNormalised) == row[raw.value].1 by {
          AliasOrderDecides(row, aliases, RawThenNormalised, a);
        }
        return row[raw.value].1;
      }
      for j := 0 to |row|
        invariant forall i :: 0 <= i < j ==> NormKey(row[i].0) != Lower(alias)
      {
        if NormKey(row[j].0) == Lower(alias) {
          assert GetColValue(row, aliases, RawThenNormalised) == row[j].1 by {
            assert FirstKey(row, NormEquals(Lower(alias))) == Some(j);
            AliasOrderDecides(row, aliases, RawThenNormalised, a);
          }
          return row[j].1;
        }
      }
      assert AliasColumn(row, alias, RawThenNormalised).None? by {
        assert FirstKey(row, NormEquals(Lower(alias))).None?;
      }
    }
    return None;
  }

  /**
   * `get_col` of src/ri.py: every column name normalised once; aliases in
   * order; for each, an exact normalised match in row order, then, for an
   * alias mentioning "company", the first column whose name mentions it.
   */
  method GetColCompany(row: Row, aliases: seq<string>) returns (c: Cell)
    ensures c == GetColValue(row, aliases, CompanyFallback)
  {
    var clean := seq(|row|, i requires 0 <= i < |row| => NormKey(row[i].0));
    for a := 0 to |aliases|
      invariant forall b :: 0 <= b < a ==> AliasColumn(row, aliases[b], CompanyFallback).None?
    {
      var k := AliasLookupCompany(row, clean, aliases[a]);
      if k.Some? {
        AliasOrderDecides(row, aliases, CompanyFallback, a);
        return row[k.value].1;
      }
    }
    return None;
  }

  /** The body of src/ri.py's alias loop for one alias, over the normalised names `clean`. */
  method AliasLookupCompany(row: Row, clean: seq<string>, alias: string) returns (k: Option<nat>)
    requires |clean| == |row|
    requires forall i :: 0 <= i < |row| ==> clean[i] == NormKey(row[i].0)
    ensures k == AliasColumn(row, alias, CompanyFallback)
  {
    var aliasClean := Lower(alias);
    k := ExactLookup(row, clean, aliasClean);
    if k.None? && Contains(aliasClean, "company") {
      k := CompanyLookup(row, clean);
    }
  }

  /** src/ri.py's exact pass: the first normalised name equal to `target`. */
  method ExactLookup(row: Row, clean: seq<string>, target: string) returns (k: Option<nat>)
    requires |clean| == |row|
    requires forall i :: 0 <= i < |row| ==> clean[i] == NormKey(row[i].0)
    ensures k == FirstKey(row, NormEquals(target))
  {
    for j := 0 to |row|
      invariant forall i :: 0 <= i < j ==> !Passes(row[i].0, NormEquals(target))
    {
      if target == clean[j] {
        assert FirstKey(row, NormEquals(target)) == Some(j);
        return Some(j);
      }
    }
    return None;
  }

  /** src/ri.py's fallback pass: the first normalised name mentioning "company". */
  method CompanyLookup(row: Row, clean: seq<string>) returns (k: Option<nat>)
    requires |clean| == |row|
    requires forall i :: 0 <= i < |row| ==> clean[i] == NormKey(row[i].0)
    ensures k == FirstKey(row, NormContains("company"))
  {
    for j := 0 to |row|
      invariant forall i :: 0 <= i < j ==> !Passes(row[i].0, NormContains("company"))
    {
      if Contains(clean[j], "company") {
        assert FirstKey(row, NormContains("company")) == Some(j);
        return Some(j);
      }
    }
    return None;
  }

  // ---------------------------------------------------------------- properties

  /**
   * Alias order decides: when alias `a` is the first that names any column,
   * `get_col` reads the column `a` selects, whatever later aliases would select.
   */
  lemma AliasOrderDecides(row: Row, aliases: seq<string>, v: Variant, a: nat)
    requires a < |aliases| && AliasColumn(row, aliases[a], v).Some?
    requires forall b :: 0 <= b < a ==> AliasColumn(row, aliases[b], v).None?
    ensures ColumnIndex(row, aliases, v) == AliasColumn(row, aliases[a], v)
  {
    var f := FirstMatchingAlias(row, aliases, v);
    assert f.Some?;
    assert f.value == a;
  }

  /**
   * In src/ca.py and src/tx.py a column whose raw name is the alias wins over
   * an earlier column that only normalises to it.
   */
  lemma RawNameFirst(row: Row, alias: string, i: nat)
    requires i < |row| && row[i].0 == alias
    requires forall j :: 0 <= j < i ==> row[j].0 != alias
    ensures GetColValue(row, [alias], RawThenNormalised) == row[i].1
  {
    assert FirstKey(row, RawEquals(alias)) == Some(i);
    AliasOrderDecides(row, [alias], RawThenNormalised, 0);
  }

  /**
   * With no raw match, src/ca.py reads the first column whose name, with
   * newlines as spaces, trimmed and lower-cased, equals the lower-cased alias.
   */
  lemma NormalisedMatch(row: Row, alias: string, i: nat)
    requires forall j :: 0 <= j < |row| ==> row[j].0 != alias
    requires i < |row| && NormKey(row[i].0) == Lower(alias)
    requires forall j :: 0 <= j < i ==> NormKey(row[j].0) != Lower(alias)
    ensures GetColValue(row, [alias], RawThenNormalised) == row[i].1
  {
    assert FirstKey(row, RawEquals(alias)).None?;
    assert FirstKey(row, NormEquals(Lower(alias))) == Some(i);
    AliasOrderDecides(row, [alias], RawThenNormalised, 0);
  }

  /**
   * In src/ri.py a company alias with no exact match reads the first column,
   * in row order, whose normalised name mentions "company", before any later
   * alias is tried.
   */
  lemma CompanyFallbackFirst(row: Row, aliases: seq<string>, a: nat, i: nat)
    requires a < |aliases| && Contains(Lower(aliases[a]), "company")
    requires forall b :: 0 <= b < a ==> AliasColumn(row, aliases[b], CompanyFallback).None?
    requires forall j :: 0 <= j < |row| ==> NormKey(row[j].0) != Lower(aliases[a])
    requires i < |row| && Contains(NormKey(row[i].0), "company")
    requires forall j :: 0 <= j < i ==> !Contains(NormKey(row[j].0), "company")
    ensures GetColValue(row, aliases, CompanyFallback) == row[i].1
  {
    assert FirstKey(row, NormEquals(Lower(aliases[a]))).None?;
    assert FirstKey(row, NormContains("company")) == Some(i);
    AliasOrderDecides(row, aliases, CompanyFallback, a);
  }

  /**
   * In src/ri.py, when no alias mentions "company", only exact normalised
   * matches count: every column read is one whose normalised name equals
   * some lower-cased alias.
   */
  lemma NoFallbackWithoutCompany(row: Row, aliases: seq<string>)
    requires forall b :: 0 <= b < |aliases| ==> !Contains(Lower(aliases[b]), "company")
    ensures var r := ColumnIndex(row, aliases, CompanyFallback);
      r.Some? ==> exists b :: 0 <= b < |aliases| && NormKey(row[r.value].0) == Lower(aliases[b])
  {
    var f := FirstMatchingAlias(row, aliases, CompanyFallback);
    if f.Some? {
      var b := f.value;
      assert FirstKey(row, NormEquals(Lower(aliases[b]))).Some?;
    }
  }

  // ---------------------------------------------------------------- header maps

  /**
   * A header map (`idx_map` in src/ca.py, `header_map` in src/nm.py) built
   * from each column's field, column by column: a field maps to the last
   * column naming it, so later columns overwrite earlier ones; a field no
   * column names is absent.
   */
  function FieldColumns<F>(fields: seq<Option<F>>): map<F, nat> {
    if fields == [] then map[]
    else
      var n := |fields| - 1;
      var m := FieldColumns(fields[..n]);
      if fields[n].Some? then m[fields[n].value := n] else m
  }

  /** Each header cell's field, column by column, as `classify` names it. */
  function Classified<C, F>(cells: seq<C>, classify: C -> Option<F>): (r: seq<Option<F>>)
    ensures |r| == |cells| && forall i :: 0 <= i < |cells| ==> r[i] == classify(cells[i])
  {
    seq(|cells|, i requires 0 <= i < |cells| => classify(cells[i]))
  }

  /**
   * In a header map a field maps to a column naming it, after which no
   * column names it; a field no column names is absent.
   */
  lemma {:induction false} FieldColumnsOf<F(!new)>(fields: seq<Option<F>>, f: F)
    ensures var m := FieldColumns(fields);
      f in m ==> m[f] < |fields| && fields[m[f]] == Some(f) && forall j :: m[f] < j < |fields| ==> fields[j] != Some(f)
    ensures f !in FieldColumns(fields) ==> forall j :: 0 <= j < |fields| ==> fields[j] != Some(f)
  {
    if fields != [] {
      var n := |fields| - 1;
      var init := fields[..n];
      FieldColumnsOf(init, f);
      assert forall j :: 0 <= j < n ==> init[j] == fields[j];
      if fields[n] != Some(f) {
        assert FieldColumns(fields) == FieldColumns(init) || (fields[n].Some? && FieldColumns(fields) == FieldColumns(init)[fields[n].value := n]);
      }
    }
  }

  /** One more column: the map of the longer prefix is that of the shorter one, updated by the new column's field. */
  lemma FieldColumnsSnoc<F(!new)>(fields: seq<Option<F>>, i: nat)
    requires i < |fields|
    ensures FieldColumns(fields[..i + 1]) ==
      if fields[i].Some? then FieldColumns(fields[..i])[fields[i].value := i] else FieldColumns(fields[..i])
  {
    assert fields[..i + 1][..i] == fields[..i];
  }
}
