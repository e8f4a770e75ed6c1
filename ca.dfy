/**
 * src/ca.py: the free-text address splitter `parse_address` and the
 * header classification that builds `idx_map` for a PDF table.
 *
 * `parse_address` takes a trailing zip code off the trimmed text, cuts the
 * rest at the first " CA ", and splits what precedes it into street and
 * city by the first strategy that yields a city: double-space segments,
 * then the last comma, then a street suffix from a fixed list.
 */
module Ca {
  import opened Wrappers
  import opened PyStr
  import opened Models
  import Columns

  /** The dictionary `parse_address` returns. */
  datatype ParsedAddress = ParsedAddress(street: Option<string>, municipality: Option<string>, zip: Option<string>)

  // ---------------------------------------------------------------- zip code

  /** `s[:-k]` for `k >= 0` (so `s[:-0]` is empty, as in Python). */
  function DropLast(s: string, k: nat): (r: string)
    ensures |r| <= |s| && r == s[..|r|]
  {
    if 0 < k <= |s| then s[..|s| - k] else []
  }

  /** The last space-separated token of the text, trimmed. */
  function ZipToken(addr: string): string {
    Strip(Last(Split(addr, " ")))
  }

  /** A zip code such as 90210 or 90210-1234: digits once dashes are dropped, and at least five characters. */
  predicate IsZipCode(t: string) {
    IsDigits(RemoveChar(t, '-')) && |t| >= 5
  }

  /** The text left for street and city once a trailing zip code is taken off, and that zip code. */
  function SplitZip(addr: string): (string, Option<string>) {
    var last := ZipToken(addr);
    if IsZipCode(last) then (Strip(DropLast(addr, |last|)), Some(last)) else (addr, None)
  }

  // ---------------------------------------------------------------- street and city

  /** `[s.strip() for s in parts if s.strip()]`. */
  function NonEmptyStripped(parts: seq<string>): (r: seq<string>)
    ensures |r| <= |parts|
    ensures forall k :: 0 <= k < |r| ==> r[k] != [] && Strip(r[k]) == r[k]
  {
    if parts == [] then []
    else
      var s := Strip(parts[0]);
      StripCharsIdempotent(parts[0], Whitespace);
      if s != [] then [s] + NonEmptyStripped(parts[1..]) else NonEmptyStripped(parts[1..])
  }

  /** The comprehension works piece by piece: the kept pieces of `a + b` are those of `a`, then those of `b`. */
  lemma {:induction false} NonEmptyStrippedConcat(a: seq<string>, b: seq<string>)
    ensures NonEmptyStripped(a + b) == NonEmptyStripped(a) + NonEmptyStripped(b)
  {
    if a == [] {
      assert a + b == b;
    } else {
      assert (a + b)[0] == a[0];
      assert (a + b)[1..] == a[1..] + b;
      NonEmptyStrippedConcat(a[1..], b);
    }
  }

  /** One piece is kept, trimmed, exactly when its trimmed text is non-empty. */
  lemma NonEmptyStrippedOne(p: string)
    ensures NonEmptyStripped([p]) == if Strip(p) != [] then [Strip(p)] else []
  {
    assert [p][1..] == [];
  }

  /** The double-space segments of the text, trimmed, empty ones dropped. */
  function Segments(pre: string): seq<string> {
    NonEmptyStripped(Split(pre, "  "))
  }

  /** Strategy 1: with at least two double-space segments, the city is the last and the street the others. */
  function ByDoubleSpace(pre: string): (Option<string>, Option<string>) {
    if Contains(pre, "  ") then
      var segs := Segments(pre);
      if |segs| >= 2 then (Some(Join(segs[..|segs| - 1], " ")), Some(Last(segs))) else (None, None)
    else (None, None)
  }

  /** Strategy 2: the city is what follows the last comma and the street what precedes it, both trimmed. */
  function ByComma(pre: string): (Option<string>, Option<string>) {
    var segs := Split(pre, ",");
    (Some(Strip(Join(segs[..|segs| - 1], ","))), Some(Strip(Last(segs))))
  }

  /** The street suffixes strategy 3 looks for, in the order it tries them. */
  const Suffixes: seq<string> := [
    " Blvd", " St", " Ave", " Rd", " Ln", " Dr", " Way", " Pl", " Ct", " Ter", " Cir",
    " Hwy", " Pkwy", " Sq"
  ]

  /** What `strip(' ,')` removes from the city. */
  const CityTrim: set<char> := {' ', ','}

  /** A suffix's dotted form when the text holds it, else its bare form when the text holds that. */
  function SuffixMarker(pre: string, sfx: string): (r: Option<string>)
    ensures Contains(pre, sfx + ".") ==> r == Some(sfx + ".")
    ensures r.None? <==> !Contains(pre, sfx)
    ensures r.Some? ==> Contains(pre, r.value) && (r.value == sfx + "." || r.value == sfx)
  {
    if Contains(pre, sfx + ".") then
      FindSpec(pre, sfx + ".");
      var i := Find(pre, sfx + ".").value;
      assert pre[i..i + |sfx|] == (sfx + ".")[..|sfx|];
      ContainsAt(pre, sfx, i);
      Some(sfx + ".")
    else if Contains(pre, sfx) then Some(sfx)
    else None
  }

  /** The first suffix of the list, at or after position `from`, that the text holds. */
  function FirstSuffixFrom(pre: string, from: nat): (r: Option<nat>)
    requires from <= |Suffixes|
    decreases |Suffixes| - from
    ensures r.Some? ==> from <= r.value < |Suffixes| && SuffixMarker(pre, Suffixes[r.value]).Some?
    ensures r.Some? ==> forall j :: from <= j < r.value ==> SuffixMarker(pre, Suffixes[j]).None?
    ensures r.None? ==> forall j :: from <= j < |Suffixes| ==> SuffixMarker(pre, Suffixes[j]).None?
  {
    if from == |Suffixes| then None
    else if SuffixMarker(pre, Suffixes[from]).Some? then Some(from)
    else FirstSuffixFrom(pre, from + 1)
  }

  /** Strategy 3 cuts the text at the first occurrence of the marker: street up to and with it, city after it. */
  function SplitAtMarker(pre: string, m: string): (string, string)
    requires |m| > 0
  {
    var parts := Split(pre, m);
    (Strip(parts[0]) + m, StripChars(Join(parts[1..], ""), CityTrim))
  }

  /** Strategy 3: the first suffix in list order that occurs decides the split. */
  function BySuffix(pre: string): Option<(string, string)> {
    var k := FirstSuffixFrom(pre, 0);
    if k.Some? then Some(SplitAtMarker(pre, SuffixMarker(pre, Suffixes[k.value]).value)) else None
  }

  /** Street and city from the text before " CA ": each strategy runs only while no non-empty city is known. */
  function StreetAndCity(pre: string): (Option<string>, Option<string>) {
    var first := ByDoubleSpace(pre);
    var second := if !Truthy(first.1) && Contains(pre, ",") then ByComma(pre) else first;
    if Truthy(second.1) then second
    else
      var third := BySuffix(pre);
      if third.Some? then (Some(third.value.0), Some(third.value.1)) else second
  }

  /** Street and city of the zip-free text: nothing unless it holds " CA ", else from the trimmed text before the first one. */
  function CaSplit(addr: string): (Option<string>, Option<string>) {
    var ca := Find(addr, " CA ");
    if ca.Some? then StreetAndCity(Strip(addr[..ca.value])) else (None, None)
  }

  /** The text left once the zip code step has run on the trimmed input. */
  function ZipFree(s: string): string {
    SplitZip(Strip(s)).0
  }

  /** What `parse_address(address_str)` returns. */
  function ParseAddressSpec(input: Cell): (r: ParsedAddress)
    ensures !Truthy(input) ==> r.street.None? && r.municipality.None? && r.zip.None?
    ensures r.zip.Some? ==> IsZipCode(r.zip.value)
    ensures r.street.Some? || r.municipality.Some? ==> Truthy(input) && Contains(ZipFree(input.value), " CA ")
  {
    if !Truthy(input) then ParsedAddress(None, None, None)
    else
      var z := SplitZip(Strip(input.value));
      var sc := CaSplit(z.0);
      ParsedAddress(sc.0, sc.1, z.1)
  }

  /**
   * `parse_address`: the steps of src/ca.py in order, reassigning the text,
   * the zip code, the street and the city, with the suffix loop stopping at
   * the first suffix that matches.
   */
  method ParseAddress(input: Cell) returns (r: ParsedAddress)
    ensures r == ParseAddressSpec(input)
  {
    if !Truthy(input) {
      return ParsedAddress(None, None, None);
    }
    var addr := Strip(input.value);
    var zipCode: Option<string> := None;
    var city: Option<string> := None;
    var street: Option<string> := None;

    var parts := Split(addr, " ");
    var last := Strip(Last(parts));
    if IsDigits(RemoveChar(last, '-')) && |last| >= 5 {
      zipCode := Some(last);
      addr := Strip(DropLast(addr, |last|));
    }
    assert (addr, zipCode) == SplitZip(Strip(input.value));

    var ca := Find(addr, " CA ");
    if ca.Some? {
      var pre := Strip(addr[..ca.value]);
      street, city := SplitStreetCity(pre);
    }
    return ParsedAddress(street, city, zipCode);
  }

  /** The three strategies of `parse_address` on the text before " CA ", each run while no city is known. */
  method SplitStreetCity(pre: string) returns (street: Option<string>, city: Option<string>)
    ensures (street, city) == StreetAndCity(pre)
  {
    street, city := None, None;
    if Contains(pre, "  ") {
      var segments := NonEmptyStripped(Split(pre, "  "));
      if |segments| >= 2 {
        city := Some(Last(segments));
        street := Some(Join(segments[..|segments| - 1], " "));
      }
    }
    assert (street, city) == ByDoubleSpace(pre);
    if !Truthy(city) && Contains(pre, ",") {
      var segs := Split(pre, ",");
      city := Some(Strip(Last(segs)));
      street := Some(Strip(Join(segs[..|segs| - 1], ",")));
    }
    if !Truthy(city) {
      street, city := SuffixLoop(pre, street, city);
    }
  }

  /**
   * The suffix loop of `parse_address`: each suffix in list order, dotted
   * form first; the first that occurs sets street and city and stops it.
   */
  method SuffixLoop(pre: string, street0: Option<string>, city0: Option<string>)
    returns (street: Option<string>, city: Option<string>)
    requires !Truthy(city0)
    ensures BySuffix(pre).Some? ==> street == Some(BySuffix(pre).value.0) && city == Some(BySuffix(pre).value.1)
    ensures BySuffix(pre).None? ==> street == street0 && city == city0
  {
    street, city := street0, city0;
    for k := 0 to |Suffixes|
      invariant street == street0 && city == city0
      invariant forall j :: 0 <= j < k ==> SuffixMarker(pre, Suffixes[j]).None?
    {
      var sfx := Suffixes[k];
      var sDot := sfx + ".";
      if Contains(pre, sDot) {
        var parts := Split(pre, sDot);
        street := Some(Strip(parts[0]) + sDot);
        city := Some(StripChars(Join(parts[1..], ""), CityTrim));
        assert FirstSuffixFrom(pre, 0) == Some(k);
        return;
      }
      if !Truthy(city) && Contains(pre, sfx) {
        var parts := Split(pre, sfx);
        street := Some(Strip(parts[0]) + sfx);
        city := Some(StripChars(Join(parts[1..], ""), CityTrim));
        assert FirstSuffixFrom(pre, 0) == Some(k);
        return;
      }
    }
  }

  // ---------------------------------------------------------------- properties of parse_address

  /**
   * The zip code is taken only when the last space-separated token of the
   * trimmed text is one; it is then that token, it ends the trimmed text,
   * and street and city come from the trimmed text before it.
   */
  lemma ZipIsLastToken(s: string)
    ensures var r := ParseAddressSpec(Some(s));
      var addr := Strip(s);
      (r.zip.Some? <==> s != "" && IsZipCode(ZipToken(addr))) &&
      (r.zip.Some? ==> r.zip.value == ZipToken(addr) && EndsWith(addr, r.zip.value) && !Contains(r.zip.value, " ") &&
                       ZipFree(s) == Strip(addr[..|addr| - |r.zip.value|]))
  {
    var addr := Strip(s);
    var last := ZipToken(addr);
    if s == "" {
      assert addr == "";
      assert Split(addr, " ") == [""];
    } else if IsZipCode(last) {
      StripCharsShape(s, Whitespace);
      TokenIsSuffix(addr);
      assert DropLast(addr, |last|) == addr[..|addr| - |last|];
    }
  }

  /**
   * A zip code right after "CA" hides the state marker: once the zip code
   * is cut off the rest is trimmed, so it ends in " CA" with no space after
   * it and the " CA " test fails. "City CA 90210", the layout the zip step
   * is written for, gives a zip code but neither street nor municipality.
   */
  lemma ZipRightAfterCa(city: string, zip: string)
    requires city != [] && city[0] !in Whitespace
    requires IsDigits(zip) && |zip| >= 5
    requires !Contains(city + " CA", " CA ")
    ensures ParseAddressSpec(Some(city + " CA " + zip)) == ParsedAddress(None, None, Some(zip))
  {
    var pre := city + " CA";
    var s := pre + " " + zip;
    assert city + " CA " + zip == s;
    assert s[0] == city[0] && s[|s| - 1] == zip[|zip| - 1];
    StripCharsStripped(s, Whitespace);
    DigitsToken(pre, zip);
    assert DropLast(s, |zip|) == pre + " ";
    StripTrailingSpace(pre);
    assert SplitZip(Strip(s)) == (pre, Some(zip));
  }

  /** An all-digit last token is the zip code, unchanged by trimming and with no dash to drop. */
  lemma DigitsToken(pre: string, zip: string)
    requires IsDigits(zip) && |zip| >= 5
    ensures ZipToken(pre + " " + zip) == zip && IsZipCode(zip)
  {
    CharFree(zip, ' ');
    LastTokenAfterSpace(pre, zip);
    StripCharsStripped(zip, Whitespace);
    RemoveCharAbsent(zip, '-');
  }

  /** Trimming drops the one space after a text that starts and ends with a non-space. */
  lemma StripTrailingSpace(pre: string)
    requires pre != [] && pre[0] !in Whitespace && pre[|pre| - 1] !in Whitespace
    ensures Strip(pre + " ") == pre
  {
    var t := pre + " ";
    assert TrimLeft(t, Whitespace) == t;
    assert t[|t| - 1] in Whitespace && t[..|t| - 1] == pre;
    assert TrimRight(t, Whitespace) == TrimRight(pre, Whitespace) == pre;
  }

  /** The trimmed last token of a text that does not end in whitespace ends it and holds no space. */
  lemma TokenIsSuffix(addr: string)
    requires addr != [] ==> addr[|addr| - 1] !in Whitespace
    ensures EndsWith(addr, ZipToken(addr)) && !Contains(ZipToken(addr), " ")
  {
    var piece := Last(Split(addr, " "));
    var t := Strip(piece);
    assert t == ZipToken(addr);
    LastPieceEnds(addr, " ");
    assert piece != [] ==> piece[|piece| - 1] !in Whitespace by {
      if piece != [] {
        assert piece[|piece| - 1] == addr[|addr| - 1];
      }
    }
    StripKeepsEnd(piece);
    EndsWithTrans(addr, piece, t);
    assert !Contains(t, " ") by {
      NotContainsInfix(piece, " ", |piece| - |t|, |piece|);
      assert piece[|piece| - |t|..|piece|] == t;
    }
  }

  lemma EndsWithTrans(a: string, b: string, c: string)
    requires EndsWith(a, b) && EndsWith(b, c)
    ensures EndsWith(a, c)
  {
    assert a[|a| - |c|..] == b[|b| - |c|..];
  }

  /** Trimming a text that does not end in whitespace keeps a suffix of it. */
  lemma StripKeepsEnd(piece: string)
    requires piece != [] ==> piece[|piece| - 1] !in Whitespace
    ensures EndsWith(piece, Strip(piece))
  {
    var l := TrimLeft(piece, Whitespace);
    TrimLeftShape(piece, Whitespace);
    if l != [] {
      assert l[|l| - 1] == piece[|piece| - 1];
      assert TrimRight(l, Whitespace) == l;
    }
  }

  /**
   * Only the text before the first " CA " is split: whatever follows it
   * leaves street and city unchanged.
   */
  lemma FirstCaOnly(a: string, b: string)
    requires Find(a + " CA ", " CA ") == Some(|a|)
    ensures CaSplit(a + " CA " + b) == StreetAndCity(Strip(a))
  {
    FindExtend(a + " CA ", " CA ", b);
    assert (a + " CA " + b)[..|a|] == a;
  }

  /** Without " CA " in the zip-free text there is neither street nor city, whatever else it holds. */
  lemma NoCaNoStreet(s: string)
    requires !Contains(ZipFree(s), " CA ")
    ensures ParseAddressSpec(Some(s)).street.None? && ParseAddressSpec(Some(s)).municipality.None?
  {
  }

  /**
   * With at least two double-space segments, the city is the last segment,
   * non-empty and trimmed, the street the others joined by single spaces,
   * and neither the comma nor the suffix strategy is consulted.
   */
  lemma DoubleSpaceWins(pre: string)
    requires Contains(pre, "  ") && |Segments(pre)| >= 2
    ensures var segs := Segments(pre);
      StreetAndCity(pre) == (Some(Join(segs[..|segs| - 1], " ")), Some(Last(segs))) &&
      Last(segs) != [] && Strip(Last(segs)) == Last(segs)
  {
  }

  /**
   * The comma strategy cuts at the last comma: the city is the trimmed text
   * after it, which holds no comma, and the street the trimmed text before
   * it. It decides the result when no double-space city was found and that
   * city is not empty.
   */
  lemma CommaSplitsAtLast(pre: string)
    requires Contains(pre, ",")
    ensures exists j :: (0 <= j < |pre| && pre[j] == ',' && !Contains(pre[j + 1..], ",") &&
      ByComma(pre) == (Some(Strip(pre[..j])), Some(Strip(pre[j + 1..]))))
    ensures !Truthy(ByDoubleSpace(pre).1) && Truthy(ByComma(pre).1) ==> StreetAndCity(pre) == ByComma(pre)
  {
    var j := CutAtLast(pre, ",");
    assert pre[j] == ',' by {
      assert pre[j..j + 1] == ",";
    }
  }

  /** Where the last separator starts: the text before it joins the other pieces and the text after it is the last piece. */
  lemma CutAtLast(s: string, sep: string) returns (j: nat)
    requires |sep| > 0 && Contains(s, sep)
    ensures j + |sep| <= |s| && s[j..j + |sep|] == sep
    ensures s[..j] == Join(Split(s, sep)[..|Split(s, sep)| - 1], sep)
    ensures s[j + |sep|..] == Last(Split(s, sep)) && !Contains(s[j + |sep|..], sep)
  {
    var segs := Split(s, sep);
    SplitLast(s, sep);
    var init := Join(segs[..|segs| - 1], sep);
    j := |init|;
    assert s == init + sep + Last(segs);
    assert s[..j] == init;
    assert s[j..j + |sep|] == sep;
    assert s[j + |sep|..] == Last(segs);
  }

  /**
   * When the chosen marker occurs once, strategy 3's street is the trimmed
   * text before it followed by the marker, and its city the rest with
   * spaces and commas trimmed from both ends.
   */
  lemma SuffixSingleOccurrence(pre: string, m: string, i: nat)
    requires |m| > 0 && Find(pre, m) == Some(i)
    requires !Contains(pre[i + |m|..], m)
    ensures SplitAtMarker(pre, m) == (Strip(pre[..i]) + m, StripChars(pre[i + |m|..], CityTrim))
  {
    var rest := pre[i + |m|..];
    assert Split(pre, m) == [pre[..i]] + Split(rest, m);
    assert Split(rest, m) == [rest];
    assert Split(pre, m)[1..] == [rest];
  }

  /** However often the marker occurs, the street is the trimmed text before its first occurrence, followed by the marker. */
  lemma SuffixStreet(pre: string, m: string, i: nat)
    requires |m| > 0 && Find(pre, m) == Some(i)
    ensures SplitAtMarker(pre, m).0 == Strip(pre[..i]) + m
  {
    assert Split(pre, m)[0] == pre[..i];
  }

  /**
   * When the marker occurs again, the city is the text after the first
   * occurrence with the later occurrence deleted, not cut there: the pieces
   * after the first are joined with nothing between them.
   */
  lemma SuffixRepeated(pre: string, m: string, i: nat, j: nat)
    requires |m| > 0 && Find(pre, m) == Some(i)
    requires Find(pre[i + |m|..], m) == Some(j)
    requires !Contains(pre[i + |m|..][j + |m|..], m)
    ensures var rest := pre[i + |m|..];
      SplitAtMarker(pre, m).1 == StripChars(rest[..j] + rest[j + |m|..], CityTrim)
  {
    var rest := pre[i + |m|..];
    var tail := rest[j + |m|..];
    assert Split(pre, m) == [pre[..i]] + Split(rest, m);
    assert Split(rest, m) == [rest[..j]] + Split(tail, m);
    assert Split(tail, m) == [tail];
    assert Split(pre, m)[1..] == [rest[..j], tail];
    assert Join([rest[..j], tail], "") == rest[..j] + "" + Join([tail], "");
    assert rest[..j] + "" + tail == rest[..j] + tail;
  }

  /**
   * Strategy 3 goes by list order, not by position in the text: the first
   * suffix of the list that occurs decides, whichever occurs first, and its
   * dotted form is preferred to its bare form.
   */
  lemma SuffixListOrder(pre: string, k: nat)
    requires k < |Suffixes| && Contains(pre, Suffixes[k])
    requires forall j :: 0 <= j < k ==> !Contains(pre, Suffixes[j])
    ensures var m := if Contains(pre, Suffixes[k] + ".") then Suffixes[k] + "." else Suffixes[k];
      BySuffix(pre) == Some(SplitAtMarker(pre, m))
  {
    var f := FirstSuffixFrom(pre, 0);
    assert f.Some?;
    assert f.value == k;
  }

  // ---------------------------------------------------------------- PDF header classification

  /** The fields `process_pdf` reads from a PDF table. */
  datatype PdfField = CompanyCol | WarnCol | LayoffCol | ImpactedCol | TypeCol | AddressCol | CityCol

  /** A header cell as compared: `str(h)` with newlines as spaces, trimmed, lower-cased. */
  function HeaderText(h: Cell): string {
    Columns.NormKey(StrOf(h))
  }

  /** The keyword groups of the header tests. */
  predicate NamesCompany(t: string) { Contains(t, "company") }
  predicate NamesWarn(t: string) { Contains(t, "received") || Contains(t, "processed") || Contains(t, "notice date") }
  predicate NamesLayoff(t: string) { Contains(t, "effective") }
  predicate NamesImpacted(t: string) { Contains(t, "no. of") || Contains(t, "number") || Contains(t, "emp") }
  predicate NamesType(t: string) { Contains(t, "layoff/closure") || Contains(t, "action") }

  /** The field a header names, by the first keyword test it passes. */
  function Classify(t: string): Option<PdfField> {
    if NamesCompany(t) then Some(CompanyCol)
    else if NamesWarn(t) then Some(WarnCol)
    else if NamesLayoff(t) then Some(LayoffCol)
    else if NamesImpacted(t) then Some(ImpactedCol)
    else if NamesType(t) then Some(TypeCol)
    else if Contains(t, "address") then Some(AddressCol)
    else if Contains(t, "city") then Some(CityCol)
    else None
  }

  function HeaderField(h: Cell): Option<PdfField> {
    Classify(HeaderText(h))
  }

  /** The header loop of `process_pdf`, filling `idx_map` column by column. */
  method BuildIdxMap(headers: seq<Cell>) returns (m: map<PdfField, nat>)
    ensures m == Columns.FieldColumns(Columns.Classified(headers, HeaderField))
  {
    var fields := Columns.Classified(headers, HeaderField);
    m := map[];
    for i := 0 to |headers|
      invariant m == Columns.FieldColumns(fields[..i])
    {
      Columns.FieldColumnsSnoc(fields, i);
      var f := Classify(HeaderText(headers[i]));
      assert f == fields[i];
      if f.Some? {
        m := m[f.value := i];
      }
    }
    assert fields[..|headers|] == fields;
  }

  /** A table is read only when `idx_map` has a company column. */
  predicate PdfTableKept(headers: seq<Cell>) {
    CompanyCol in Columns.FieldColumns(Columns.Classified(headers, HeaderField))
  }

  /** A table is kept exactly when some header mentions "company". */
  lemma PdfTableKeptIff(headers: seq<Cell>)
    ensures PdfTableKept(headers) <==> exists i :: 0 <= i < |headers| && Contains(HeaderText(headers[i]), "company")
  {
    var fields := Columns.Classified(headers, HeaderField);
    var m := Columns.FieldColumns(fields);
    Columns.FieldColumnsOf(fields, CompanyCol);
    if CompanyCol in m {
      var i := m[CompanyCol];
      ClassifyPrecedence(HeaderText(headers[i]));
      assert fields[i] == HeaderField(headers[i]);
    }
    forall i | 0 <= i < |headers| && Contains(HeaderText(headers[i]), "company")
      ensures CompanyCol in m
    {
      ClassifyPrecedence(HeaderText(headers[i]));
      assert fields[i] == HeaderField(headers[i]);
    }
  }

  /**
   * The tests are tried in `elif` order, so a header is classified by the
   * first group of keywords it mentions. A header mentioning none of them
   * has no field.
   */
  lemma ClassifyPrecedence(t: string)
    ensures Classify(t) == Some(CompanyCol) <==> NamesCompany(t)
    ensures Classify(t) == Some(WarnCol) <==> (!NamesCompany(t) && NamesWarn(t))
    ensures Classify(t) == Some(LayoffCol) <==> (!NamesCompany(t) && !NamesWarn(t) && NamesLayoff(t))
    ensures Classify(t) == Some(ImpactedCol) <==>
      (!NamesCompany(t) && !NamesWarn(t) && !NamesLayoff(t) && NamesImpacted(t))
    ensures Classify(t) == Some(TypeCol) <==>
      (!NamesCompany(t) && !NamesWarn(t) && !NamesLayoff(t) && !NamesImpacted(t) && NamesType(t))
    ensures Classify(t) == Some(AddressCol) <==>
      (!NamesCompany(t) && !NamesWarn(t) && !NamesLayoff(t) && !NamesImpacted(t) && !NamesType(t) &&
       Contains(t, "address"))
    ensures Classify(t) == Some(CityCol) <==>
      (!NamesCompany(t) && !NamesWarn(t) && !NamesLayoff(t) && !NamesImpacted(t) && !NamesType(t) &&
       !Contains(t, "address") && Contains(t, "city"))
  {
  }

  /** A header mentioning "company" is the company column, whatever else it mentions. */
  lemma CompanyHeaderFirst(h: Cell)
    requires Contains(HeaderText(h), "company")
    ensures HeaderField(h) == Some(CompanyCol)
  {
  }
}
