# WARN scraper normalisation rules in Dafny

The WARN scrapers turn state layoff-notice sheets, PDFs and web pages into
`WarnRecord`s. This model covers the small deterministic rules inside them
that turn strings, cells and rows into record fields:

- the California free-text address splitter `parse_address`, and the
  classification of PDF headers into `idx_map` (`src/ca.py`);
- the column-alias lookups `get_col`:
  - an exact or normalised key match (`src/ca.py`, `src/tx.py`);
  - Rhode Island's variant with a `company` substring fallback (`src/ri.py`);
- the keyword classifier `derive_warn_type` and the digit cleaner
  `clean_impacted` (`src/utils.py`);
- the row-to-record rules:
  - Rhode Island's closing, union and skip rules (`src/ri.py`);
  - Texas's company skip, county notes and trimmed city (`src/tx.py`);
  - New Mexico's header-row search, header map, bounded `_get` and row
    filter (`src/nm.py`);
- the two versions of Connecticut's `parse_warn_date` and `add_prefix`
  (`src/ct.py`, `build/lib/ct.py`);
- the address split, detail-link filter and next-page URL, which are
  written inline in the job-connection scrapers and extracted here as
  functions (`src/scrape_ajc.py`, `build/lib/az.py`).

Modules and files:

| module | file | contents |
|---|---|---|
| `Wrappers` | `wrappers.dfy` | `Option` and `Result` |
| `PyStr` | `pystr.dfy` | the Python string operations used: `lower`, `upper`, `replace`, `strip`, `in`, `index`, `split`, `join`, `rsplit(c, 1)`, `startswith`, `endswith`; lemmas about `strip`, `index`, `in`, `split`, `join` and `rsplit` |
| `Models` | `models.dfy` | `WarnType`, `Address`, `Employee`, `WarnRecord`, and the cell type |

The remaining modules follow the source files: `Utils`, `Columns`, `Ca`,
`Ri`, `Tx`, `Nm`, `Ct`, `CtBuild`, `Ajc` and `Az`.

How the source's data is represented:

- A pandas row or a dict is an ordered association list of (column name, cell) pairs. List order is the dict's insertion order.
- A cell is `Option<string>`. `None` stands for `None` and NaN alike; a non-empty string is "truthy".

Where the source is a loop or a chain of reassignments, the model has a
`method` with that loop. Its `ensures` ties the result to a specification
`function`, and lemmas state what the source promises about that function.

## Model

| member | source | states |
|---|---|---|
| `PyStr.FindSpec` | src/ct.py:21 | `str.index`/`find` gives the first position where the substring occurs, and none exactly when it occurs nowhere |
| `PyStr.FindFirst` | src/ct.py:21 | a position is what `index` returns exactly when the substring occurs there and at no earlier position |
| `PyStr.SplitJoin` | src/ca.py:79-81 | joining the pieces of `split(sep)` with `sep` gives back the text |
| `PyStr.SplitPiecesFree` | src/ca.py:64 | no piece of `split(sep)` contains `sep` |
| `PyStr.SplitMany` | src/ca.py:78-79 | `split(sep)` gives more than one piece exactly when the text contains `sep` |
| `PyStr.RSplitOnceSpec` | src/scrape_ajc.py:94-95 | `rsplit(c, 1)` gives two pieces exactly when the text holds `c`; joined with `c` they give the text back, and the last piece holds no `c` |
| `PyStr.LastTokenAfterSpace` | src/ca.py:46-48 | the last piece of `split(' ')` of a text ending in a space and a space-free token is that token |
| `PyStr.StripCharsIdempotent` | build/lib/ct.py:17 | stripping twice is stripping once |
| `Models.Collect` | src/tx.py:57-111 | the records of a row loop that appends at most one record per row are no more than the rows |
| `Models.CollectConcat` | src/tx.py:57-111 | the records of two consecutive row ranges are the records of the first range followed by those of the second |
| `Models.CollectOrigin` | src/tx.py:57-111 | every collected record is the record that some input row produces |
| `Utils.DeriveWarnType` | src/utils.py:5-20 | `None` or empty text gives no type |
| `Utils.DeriveWarnTypeCases` | src/utils.py:5-20 | CLOSURE exactly when the lower-cased text holds "closure" or "closing"; TEMPORARY_LAYOFF exactly when it holds neither but holds "temporary"; PERMANENT_LAYOFF exactly when it holds none of those three but holds "permanent", "no recall" or "layoff" |
| `Utils.DeriveWarnTypeCaseInsensitive` | src/utils.py:9 | upper- or lower-casing the text does not change the type |
| `Utils.ClosureWins` | src/utils.py:11-12 | text holding "closure" or "closing" in any case is CLOSURE, whatever else it holds |
| `Utils.TemporaryNeverPermanent` | src/utils.py:14-15 | text holding "temporary" is never PERMANENT_LAYOFF |
| `Utils.KeywordsDecide` | src/utils.py:11-20 | a type is derived exactly when the lower-cased text holds one of the six keywords |
| `Utils.Digits` | src/utils.py:26 | the kept characters are digits, no more than the input |
| `Utils.CleanImpacted` | src/utils.py:22-29 | no count exactly when the input is missing or has no digit |
| `Utils.NatToDecimal` | src/utils.py:28 | the decimal text of a number is non-empty and all digits |
| `Utils.DecimalRoundTrip` | src/utils.py:28 | `int` of the decimal text of `n` is `n` |
| `Utils.DigitsOfDigits` | src/utils.py:26 | an all-digit text is kept whole |
| `Utils.DigitsConcat` | src/utils.py:26 | the digits of a concatenation are the digits of each part, in order |
| `Utils.CleanImpactedNumber` | src/utils.py:26-28 | the text of a number cleans to that number |
| `Utils.CleanImpactedNegative` | src/utils.py:26-28 | "-n" cleans to n: the count is never negative |
| `Utils.CleanImpactedIgnoresNonDigit` | src/utils.py:26 | inserting a non-digit, such as a thousands comma, does not change the count |
| `Columns.FirstKeyFrom` | src/ri.py:34-36 | the first column at or after a position whose name passes the test; none before it passes, and none means no column from there passes |
| `Columns.FirstKey` | src/ri.py:41-43 | the first column in row order whose name passes the test, or none when no column passes |
| `Columns.FirstMatchingAlias` | src/ca.py:25-31 | the first alias, in the given order, that selects a column; no earlier alias selects one |
| `Columns.ColumnIndex` | src/ca.py:25-31 | the column found is in the row, and no column is found exactly when no alias selects one |
| `Columns.GetCol` | src/ca.py:24-31 | the tx/ca `get_col` loop returns the cell of the column chosen by alias order, trying the raw name before the normalised names |
| `Columns.GetColCompany` | src/ri.py:23-45 | the ri `get_col` loop returns the cell of the column chosen by alias order with the company fallback |
| `Columns.AliasLookupCompany` | src/ri.py:31-43 | the search for one alias: the first exact normalised match, else the first "company" column for a company alias |
| `Columns.ExactLookup` | src/ri.py:34-36 | the loop finds the first column whose normalised name equals the alias |
| `Columns.CompanyLookup` | src/ri.py:40-43 | the loop finds the first column whose normalised name contains "company" |
| `Columns.AliasOrderDecides` | src/ca.py:25-30 | when the first alias that selects a column is alias `a`, `a`'s column is returned, whatever later aliases match |
| `Columns.RawNameFirst` | src/ca.py:26-27 | a column named exactly as the alias is returned |
| `Columns.NormalisedMatch` | src/ca.py:28-30 | without an exact name, the first column whose name, with newlines as spaces, trimmed and lower-cased, equals the lower-cased alias is returned |
| `Columns.CompanyFallbackFirst` | src/ri.py:38-43 | a company alias with no exact match returns the first column, in row order, that contains "company", before any later alias is tried |
| `Columns.NoFallbackWithoutCompany` | src/ri.py:38-45 | without a company alias, any column found equals one of the aliases once normalised |
| `Columns.FieldColumnsOf` | src/ca.py:217-225 | in a header map, a field maps to a column classified as that field with no later such column; a field no column names is absent |
| `Columns.FieldColumnsSnoc` | src/ca.py:218-225 | one more header column updates the map only for that column's field |
| `Ca.DropLast` | src/ca.py:53 | `s[:-k]` is a prefix of `s` |
| `Ca.NonEmptyStripped` | src/ca.py:67 | the kept segments are non-empty and trimmed, no more than the pieces |
| `Ca.NonEmptyStrippedConcat` | src/ca.py:67 | the comprehension keeps pieces in order: the kept pieces of `a + b` are those of `a` followed by those of `b` |
| `Ca.NonEmptyStrippedOne` | src/ca.py:67 | a single piece is kept, trimmed, exactly when its trimmed text is non-empty |
| `Ca.SuffixMarker` | src/ca.py:95-105 | the dotted suffix when the text holds it, else the bare suffix when it holds that; none exactly when the bare suffix is absent |
| `Ca.FirstSuffixFrom` | src/ca.py:93-112 | the first suffix in list order that the text holds; none of the suffixes before it occurs |
| `Ca.ParseAddressSpec` | src/ca.py:33-133 | empty input gives all `None`; a zip code is digits once dashes go, with at least five characters; a street or city exists only when the zip-free text holds " CA " |
| `Ca.ParseAddress` | src/ca.py:33-133 | the step-by-step `parse_address` returns `ParseAddressSpec` |
| `Ca.SplitStreetCity` | src/ca.py:63-112 | the three strategies run in order, each only while no non-empty city is known, and give `StreetAndCity` |
| `Ca.SuffixLoop` | src/ca.py:87-112 | the suffix loop stops at the first suffix that matches and splits there; with no match, the street and city found so far stay |
| `Ca.DigitsToken` | src/ca.py:46-51 | an all-digit token of at least five characters after the last space is taken as the zip code |
| `Ca.ZipRightAfterCa` | src/ca.py:43-58 | for "city CA 90210", the format named at line 44, where the city holds no " CA ": the zip code is found, but the zip-free text "city CA" no longer holds " CA ", so there is no street and no municipality |
| `Ca.ZipIsLastToken` | src/ca.py:46-53 | a zip code is found exactly when the last space-separated token of the trimmed text is zip-shaped; it has no space, it ends the text, and the text before it, trimmed, is parsed further |
| `Ca.TokenIsSuffix` | src/ca.py:46-48 | the last token ends the text and holds no space |
| `Ca.FirstCaOnly` | src/ca.py:56-58 | only the text before the first " CA " is split into street and city |
| `Ca.NoCaNoStreet` | src/ca.py:56-121 | without " CA " in the zip-free text there is neither street nor municipality |
| `Ca.DoubleSpaceWins` | src/ca.py:63-70 | with a double space and at least two non-empty segments, the city is the last segment (non-empty, trimmed) and the street the others joined by single spaces |
| `Ca.CommaSplitsAtLast` | src/ca.py:76-81 | the comma split cuts at the last comma: street before it and city after it, both trimmed; it is used when the double-space strategy finds no city |
| `Ca.CutAtLast` | src/ca.py:79-81 | the text before and after the last separator are the joined leading pieces and the last piece |
| `Ca.SuffixSingleOccurrence` | src/ca.py:96-100 | when the marker occurs once, the street is the trimmed text before it plus the marker, and the city is the rest with spaces and commas trimmed |
| `Ca.SuffixStreet` | src/ca.py:97-99 | once the marker is chosen, the street is the trimmed text before its first occurrence followed by the marker, however often it occurs |
| `Ca.SuffixRepeated` | src/ca.py:97-100 | when the marker occurs twice, the city is the text after the first occurrence with the second occurrence cut out, then spaces and commas trimmed |
| `Ca.SuffixListOrder` | src/ca.py:89-112 | the first suffix in list order that occurs decides the split, dotted form before bare, whatever its position |
| `Ca.BuildIdxMap` | src/ca.py:215-225 | the header loop builds the map in which each field has the last column classified as it |
| `Ca.ClassifyPrecedence` | src/ca.py:219-225 | each field is chosen exactly when its keywords occur in the lower-cased header and no earlier branch's keywords do, in the order company, warn, layoff, impacted, type, address, city |
| `Ca.PdfTableKeptIff` | src/ca.py:219-228 | a table is read exactly when some header mentions "company" |
| `Ca.CompanyHeaderFirst` | src/ca.py:219 | a header mentioning "company" is the company column, whatever else it mentions |
| `Ri.ClosingType` | src/ri.py:99-103 | "yes" (trimmed, any case) gives CLOSURE, "no" gives PERMANENT_LAYOFF, and anything else, missing included, gives TEMPORARY_LAYOFF |
| `Ri.UnionOf` | src/ri.py:106-140 | a union exists exactly when the flag says "yes"; its name is "Union", its address exists exactly when an address cell is present, and that address holds the parsed parts with state "RI" |
| `Ri.RowRecord` | src/ri.py:86-155 | no record exactly when the company cell is missing or empty; otherwise the trimmed company, state "RI", the trimmed location cell as municipality (none when it is missing or empty), the closing type, the cleaned count, the union given by `UnionOf` on the flag and address cells, notes "Sheet: " + sheet, and the sheet URL |
| `Ri.ScrapeRow` | src/ri.py:86-156 | the row step returns `RowRecord` |
| `Ri.ScrapeSheet` | src/ri.py:83-156 | the row loop collects the records of the rows in order |
| `Ri.ClosingCaseInsensitive` | src/ri.py:100-103 | the case of the closing cell does not matter |
| `Ri.SheetRecordsConcat` | src/ri.py:83-156 | the records of two consecutive row ranges are the concatenation of each range's records |
| `Ri.SheetRecordsShape` | src/ri.py:142-156 | every record has the sheet note, state "RI" and the URL, and comes from some row |
| `Ri.SkippedRowAddsNothing` | src/ri.py:95-96 | a row without a company adds no record |
| `Tx.CountyNote` | src/tx.py:93-95 | notes exist exactly when the county is present, and are "County: " followed by the county |
| `Tx.RowRecord` | src/tx.py:61-110 | no record exactly when the company is missing; otherwise the trimmed company, state "tx", no zip, no type, the trimmed city cell as municipality (none when it is missing or empty), the county note, and the cleaned count cell (none when it is missing or empty) |
| `Tx.ProcessRow` | src/tx.py:61-111 | the row step returns `RowRecord` |
| `Tx.ProcessRows` | src/tx.py:57-112 | the row loop collects the records of the rows in order |
| `Tx.CountyColumnNote` | src/tx.py:93-95 | a COUNTY_NAME column gives the note "County: " + its value |
| `Tx.RecordsConcat` | src/tx.py:57-112 | the records of two consecutive row ranges are the concatenation of each range's records |
| `Tx.RecordsShape` | src/tx.py:97-111 | every record has the sheet URL, state "tx", no zip and no type, and comes from some row |
| `Nm.CellTexts` | src/nm.py:37 | the texts of a row's non-empty cells are no more than its cells |
| `Nm.CellTextsConcat` | src/nm.py:37 | the cell texts of a row are taken in order: those of `a + b` are those of `a` followed by those of `b` |
| `Nm.CellTextsOne` | src/nm.py:37 | a cell gives its text, newlines as spaces, exactly when it is present and non-empty |
| `Nm.FirstWhereFrom` | src/nm.py:36-40 | the first row at or after a position that satisfies the test, none before it doing so |
| `Nm.FirstWhereAt` | src/nm.py:36-40 | the first row that satisfies the test is the one found |
| `Nm.FindHeaderRow` | src/nm.py:35-43 | the loop finds the first row holding both "NOTICE DATE" and "JOB SITE NAME" |
| `Nm.HeaderFieldPrecedence` | src/nm.py:48-56 | a missing or empty cell is not classified; otherwise each field is chosen exactly when its text occurs in the upper-cased, trimmed header and no earlier branch's text does, in the order NOTICE DATE, JOB SITE NAME, TOTAL LAYOFF, LAYOFF DATE, CITY NAME |
| `Nm.BuildHeaderMap` | src/nm.py:46-56 | the loop builds the map in which each field has the last header cell classified as it |
| `Nm.Get` | src/nm.py:63-65 | a value comes only from a mapped column inside the row, and a mapped column inside the row always gives its cell |
| `Nm.RowRecord` | src/nm.py:59-84 | a record exactly when the row is non-empty and its company cell is present; it has the trimmed company, state "nm", the URL, the trimmed city cell as municipality (none when it is missing or empty), and the cleaned count cell (none when it is missing or empty) |
| `Nm.TableRecords` | src/nm.py:31-84 | a table with fewer than two rows or no header row gives no records; otherwise there are fewer records than rows |
| `Nm.ParseTable` | src/nm.py:31-84 | the table loop returns `TableRecords` |
| `Nm.PreambleIgnored` | src/nm.py:35-43 | rows before the header row change nothing |
| `Nm.RecordsFromHeader` | src/nm.py:59 | the records are those of the rows after the header row, read through the header map |
| `Nm.FirstWhereShift` | src/nm.py:36-40 | rows that fail the test, put in front, shift the first match by their number |
| `Nm.RowsRecordsConcat` | src/nm.py:59-84 | the records of two consecutive row ranges are the concatenation of each range's records |
| `Nm.RowsRecordsShape` | src/nm.py:71-84 | every record has a company name, state "nm" and the URL, and comes from some row |
| `Ct.AddPrefix` | src/ct.py:3-7 | a link becomes the base folder followed by the link; a missing link stays missing |
| `Ct.AddPrefixInjective` | src/ct.py:3-7 | different links stay different |
| `Ct.LastPresentSpec` | src/ct.py:10-20 | after the first `n` checks the marker is the default when none of those overrides occurs, else the last one that occurs |
| `Ct.ChosenPinSpec` | src/ct.py:10-20 | the last override marker present wins; the default stands only when no override occurs |
| `Ct.NotDatedWins` | src/ct.py:19-20 | "Not Dated Rec'd", checked last, wins whenever it occurs |
| `Ct.ParseWarnDateSpec` | src/ct.py:9-23 | an error exactly when the chosen marker does not occur; otherwise the untrimmed text after its first occurrence |
| `Ct.ParseWarnDate` | src/ct.py:9-23 | the six reassignments and the slice return `ParseWarnDateSpec` |
| `Ct.ParseWarnDateFails` | src/ct.py:21 | `index` raises exactly when none of the six markers occurs |
| `CtBuild.FirstPinFrom` | build/lib/ct.py:12-14 | the first marker in list order that the date holds, none before it occurring |
| `CtBuild.ParseWarnDateSpec` | build/lib/ct.py:11-18 | the date unchanged when no marker occurs; otherwise the trimmed text after the first occurrence of the first marker in list order that the date holds |
| `CtBuild.ParseWarnDate` | build/lib/ct.py:11-18 | the loop over the marker list, returning at the first match, gives `ParseWarnDateSpec` |
| `CtBuild.DefaultPinFirst` | build/lib/ct.py:12-14 | a date holding "Rec'd" is cut there, whatever else it holds |
| `CtBuild.NotDatedNeverChosen` | build/lib/ct.py:12-14 | "Not Dated Rec'd" is never the marker chosen, because it holds "Rec'd" |
| `CtBuild.FailsWhereSourceRaises` | build/lib/ct.py:18 | this version passes the date through exactly where src/ct.py raises |
| `CtBuild.TrimmedWhenSamePin` | build/lib/ct.py:15-17 | when both versions choose the same marker, this one returns src/ct.py's result, trimmed |
| `Ajc.ZipOf` | src/scrape_ajc.py:94-95 | a zip code exactly when the trimmed segment holds a space; it is the segment's last token: it ends the segment right after a space and holds no space |
| `Ajc.SplitAddress` | src/scrape_ajc.py:83-95 | without address text all parts are missing; the street is the first line, trimmed; a municipality exactly when there is a second line; a zip code only with a municipality, and never with a space |
| `Ajc.ExtraLinesIgnored` | src/scrape_ajc.py:87-92 | lines after the second change nothing |
| `Ajc.SecondLine` | src/scrape_ajc.py:89-95 | for "street\ncity,rest" the municipality is the trimmed city, and the zip code is the last token (after the last space) of the trimmed text of `rest` up to its first comma, present exactly when that text holds a space |
| `Ajc.SecondLineNoComma` | src/scrape_ajc.py:89-92 | for "street\ncity" with no comma, the municipality is the whole trimmed second line and there is no zip code |
| `Ajc.SingleLine` | src/scrape_ajc.py:86-89 | a single line is all street, with no municipality and no zip code |
| `Ajc.DetailLinks` | src/scrape_ajc.py:44-46 | a link is kept exactly when it was found and is a detail link; deduplication keeps no more links than were found |
| `Ajc.DetailLinkIff` | src/scrape_ajc.py:44 | a link is kept exactly when, with trailing slashes dropped, it ends in a run of digits that starts it or follows a slash |
| `Ajc.NextPageUrl` | src/scrape_ajc.py:142-148 | an href not starting with "/" is used as it is; otherwise the result is the current page's domain followed by the href |
| `Ajc.DomainOf` | src/scrape_ajc.py:145 | the domain of "scheme//host/path" is "scheme//host" |
| `Ajc.NextPageOnSameHost` | src/scrape_ajc.py:142-146 | on a page "scheme//host/path", a site-relative href leads to "scheme//host" followed by the href |
| `Az.SplitAddress` | build/lib/az.py:37-53 | the street holds no newline and the zip code no space; a single line gives an empty municipality and zip code |
| `Az.AgreesWithAjc` | build/lib/az.py:41-53 | on non-empty text, the az and ajc splits agree: the same street once trimmed, and the same municipality and zip code, with "" standing for a missing one |
| `Az.NextPageUrl` | build/lib/az.py:76-79 | the next page is the fixed host followed by the href |
| `Az.NextPageMatchesAjc` | build/lib/az.py:79 | for a site-relative href on a page of that host, this gives the same address as the ajc rule |

## Left out

- Network, browser, PDF and spreadsheet reading are left out. So are the page and sheet loops around the rules, file output, printing, and `try`/`except` error handling. Their inputs become parameters: rows, cells, header cells, link lists, the current page's URL and hrefs.
- Date parsing (`parse_date`, `pd.to_datetime`, `strptime`) is left out; the date fields of the records are left unset.
- The gazetteer-based `parse_address` of `src.utils`, which `src/ri.py:7` imports, is not part of this model. It becomes a `Resolver` function parameter.
- Pandas cells are `Option<string>`. NaN is folded into `None`, and numeric cells are represented by their text. Python's falsiness of the number 0 and float formatting by `str` are not modelled.
- `lower`, `upper` and `isdigit` are modelled on ASCII only: case mapping for A-Z and the digits 0-9; Unicode case and digit classes are left out. `strip()` uses the full set of characters for which Python's `str.isspace` holds.
- The guards `len(parts) > 0` (src/ca.py:47, src/scrape_ajc.py:88, build/lib/az.py:42) always hold after a split, so the model has no branch for them.
- src/ca.py, `process_pdf`: the skip of tables with fewer than two rows (line 212) and the row reading after the header map (lines 230 on) are left out.
- src/ca.py:115-127: the "fallback" and "clean up" blocks change nothing and are modelled as doing nothing.
- src/ri.py: sheet selection (lines 69-72) and the date columns are left out. The union-name split at lines 132-138 computes a value that is never used, so it is left out.
- src/tx.py:87: the type string is always `None`, so the type of a Texas record is always `None`; the `derive_warn_type` call on it is left out.
- src/nm.py: the page and table iteration around `_parse_pdf`'s table body, and the date columns, are left out.
- src/scrape_ajc.py, build/lib/az.py: record construction, the page locators behind `get_field`, and exception handling are left out. Only the address, link and URL rules are modelled.
- Ri.UnionOf: the address parts come from the `Resolver` parameter, so the contract says only how they are placed, not what they are.
- Az.SplitAddress: its contract bounds the parts; their values are stated by `Az.AgreesWithAjc` against `Ajc.SplitAddress` and `Ajc.SecondLine`.
