/**
 * src/scrape_ajc.py: the text rules of the job-connection scraper, each
 * written inline in its page loop: the split of a detail page's address
 * into street, municipality and zip code; the filter that keeps only links
 * to numbered notices, without duplicates; and the address of the next
 * results page.
 */
module Ajc {
  import opened Wrappers
  import opened PyStr
  import opened Models

  // ---------------------------------------------------------------- address

  /**
   * `sz[-1] if len(sz) > 1 else None` for `sz = seg.strip().rsplit(' ', 1)`:
   * the last space-separated token of the trimmed segment, when it has more
   * than one.
   */
  function ZipOf(seg: string): (r: Option<string>)
    ensures r.Some? <==> Contains(Strip(seg), " ")
    ensures r.Some? ==> EndsWith(Strip(seg), r.value) && !Contains(r.value, " ")
    ensures r.Some? ==> AfterLastSpace(Strip(seg), r.value)
  {
    var sz := RSplitOnce(Strip(seg), ' ');
    RSplitOnceSpec(Strip(seg), ' ');
    if |sz| > 1 then
      assert Strip(seg) == sz[0] + " " + sz[1];
      Some(Last(sz))
    else None
  }

  /** `tok` ends `s` right after a space and holds none: it is the last space-separated token of `s`. */
  predicate AfterLastSpace(s: string, tok: string) {
    |tok| < |s| && s[|s| - |tok|..] == tok && s[|s| - |tok| - 1] == ' ' && !Contains(tok, " ")
  }

  /**
   * The address of a detail page (`address_text`, `None` when the page has
   * none): the first line is the street; a second line "City, State Zip"
   * gives the municipality before its first comma and the zip code from
   * the text between its first and second comma. The state is the one the
   * scraper was started for.
   */
  function SplitAddress(text: Option<string>, state: string): (r: Address)
    ensures r.state == Some(state)
    ensures !Truthy(text) ==> r.street.None? && r.municipality.None? && r.zip.None?
    ensures Truthy(text) ==>
      r.street == Some(Strip(match Find(text.value, "\n") case Some(i) => text.value[..i] case None => text.value))
    ensures r.municipality.Some? <==> Truthy(text) && Contains(text.value, "\n")
    ensures r.zip.Some? ==> r.municipality.Some? && !Contains(r.zip.value, " ")
  {
    if !Truthy(text) then Address(None, None, Some(state), None)
    else
      var parts := Split(text.value, "\n");
      SplitFirst(text.value, "\n");
      SplitMany(text.value, "\n");
      var street := Strip(parts[0]);
      if |parts| > 1 then
        var cityState := Split(parts[1], ",");
        var zip := if |cityState| > 1 then ZipOf(cityState[1]) else None;
        Address(Some(street), Some(Strip(cityState[0])), Some(state), zip)
      else Address(Some(street), None, Some(state), None)
  }

  /** Lines after the second are ignored. */
  lemma ExtraLinesIgnored(a: string, b: string, c: string, state: string)
    requires !Contains(a, "\n") && !Contains(b, "\n")
    ensures SplitAddress(Some(a + "\n" + b + "\n" + c), state) == SplitAddress(Some(a + "\n" + b), state)
  {
    SplitAtFirst(a, '\n', b + "\n" + c);
    assert a + "\n" + b + "\n" + c == a + "\n" + (b + "\n" + c);
    SplitAtFirst(b, '\n', c);
    SplitAtFirst(a, '\n', b);
    FindSpec(b, "\n");
  }

  /**
   * With a second line "city,rest" (a city free of commas), the
   * municipality is the trimmed city and the zip code is taken from the
   * trimmed text of `rest` up to its first comma: its last token, present
   * exactly when that text holds a space.
   */
  lemma SecondLine(a: string, city: string, rest: string, state: string)
    requires !Contains(a, "\n") && !Contains(city + "," + rest, "\n") && !Contains(city, ",")
    ensures var r := SplitAddress(Some(a + "\n" + city + "," + rest), state);
      var seg := Strip(match Find(rest, ",") case Some(i) => rest[..i] case None => rest);
      r.street == Some(Strip(a)) && r.municipality == Some(Strip(city)) &&
      (r.zip.Some? <==> Contains(seg, " ")) &&
      (r.zip.Some? ==> AfterLastSpace(seg, r.zip.value))
  {
    var line := city + "," + rest;
    assert a + "\n" + city + "," + rest == a + "\n" + line;
    SplitAtFirst(a, '\n', line);
    SplitAtFirst(city, ',', rest);
    SplitFirst(rest, ",");
    FindSpec(line, "\n");
  }

  /** A second line without a comma is all municipality, trimmed, and gives no zip code. */
  lemma SecondLineNoComma(a: string, line: string, state: string)
    requires !Contains(a, "\n") && !Contains(line, "\n") && !Contains(line, ",")
    ensures var r := SplitAddress(Some(a + "\n" + line), state);
      r.street == Some(Strip(a)) && r.municipality == Some(Strip(line)) && r.zip.None?
  {
    SplitAtFirst(a, '\n', line);
    FindSpec(a + "\n" + line, "\n");
    SplitMany(line, ",");
    FindSpec(line, "\n");
  }

  /** A single line is all street: no municipality and no zip code. */
  lemma SingleLine(a: string, state: string)
    requires a != "" && !Contains(a, "\n")
    ensures SplitAddress(Some(a), state) == Address(Some(Strip(a)), None, Some(state), None)
  {
    FindSpec(a, "\n");
  }

  // ---------------------------------------------------------------- detail links

  /** `l.rstrip('/').split('/')[-1]`: the last path segment of a link, trailing slashes ignored. */
  function LastSegment(link: string): string {
    Last(Split(TrimRight(link, {'/'}), "/"))
  }

  /** A link to a numbered notice: its last path segment is all digits. */
  predicate IsDetailLink(link: string) {
    IsDigits(LastSegment(link))
  }

  /** The links kept from a results page: the detail links among them, each once. */
  function DetailLinks(links: seq<string>): (r: set<string>)
    ensures forall l :: l in r <==> l in links && IsDetailLink(l)
    ensures |r| <= |links|
  {
    var r := set l | l in links && IsDetailLink(l);
    ElementsBound(links);
    assert r <= set l | l in links;
    SubsetCardinality(r, set l | l in links);
    r
  }

  /**
   * A link is a detail link exactly when, trailing slashes dropped, it ends
   * in a run of digits that starts the link or follows a slash.
   */
  lemma DetailLinkIff(link: string)
    ensures IsDetailLink(link) <==> DigitsAfterSlash(TrimRight(link, {'/'}))
  {
    var t := TrimRight(link, {'/'});
    var p := LastSegment(link);
    var kp := |t| - |p|;
    SegmentShape(t);
    assert t[kp..] == p;
    if IsDetailLink(link) {
      assert 0 <= kp <= |t| && (kp == 0 || t[kp - 1] == '/') && IsDigits(t[kp..]);
    }
    if DigitsAfterSlash(t) {
      var k :| 0 <= k <= |t| && (k == 0 || t[k - 1] == '/') && IsDigits(t[k..]);
      SegmentStart(t, p, kp, k);
      assert t[k..] == p;
    }
  }

  /** The text ends in a run of digits that starts it or follows a slash. */
  predicate DigitsAfterSlash(t: string) {
    exists k :: 0 <= k <= |t| && (k == 0 || t[k - 1] == '/') && IsDigits(t[k..])
  }

  /** The last piece of a split at "/" ends the text, holds no slash, and starts the text or follows a slash. */
  lemma SegmentShape(t: string)
    ensures var p := Last(Split(t, "/"));
      EndsWith(t, p) && !Contains(p, "/") && (|t| == |p| || t[|t| - |p| - 1] == '/')
  {
    var parts := Split(t, "/");
    var p := Last(parts);
    LastPieceEnds(t, "/");
    if Contains(t, "/") {
      SplitLast(t, "/");
      assert t == Join(parts[..|parts| - 1], "/") + "/" + p;
    } else {
      SplitMany(t, "/");
    }
  }

  /**
   * Two candidate starts of the last segment coincide: one after which no
   * slash follows, one after which all are digits, each at the start or
   * after a slash.
   */
  lemma SegmentStart(t: string, p: string, kp: nat, k: nat)
    requires kp <= |t| && t[kp..] == p && !Contains(p, "/") && (kp == 0 || t[kp - 1] == '/')
    requires k <= |t| && (k == 0 || t[k - 1] == '/') && IsDigits(t[k..])
    ensures k == kp
  {
    FindSpec(p, "/");
    forall j | kp <= j < |t| ensures t[j] != '/' {
      assert !OccursAt(p, "/", j - kp);
      assert p[j - kp..j - kp + 1] == [t[j]];
    }
    forall j | k <= j < |t| ensures t[j] != '/' {
      assert IsDigit(t[k..][j - k]);
    }
  }

  /** The distinct elements of a list are no more than its length. */
  lemma {:induction false} ElementsBound(xs: seq<string>)
    ensures |set x | x in xs| <= |xs|
  {
    if xs != [] {
      var n := |xs| - 1;
      ElementsBound(xs[..n]);
      assert (set x | x in xs) == (set x | x in xs[..n]) + {xs[n]} by {
        forall x | x in xs ensures x in xs[..n] || x == xs[n] {
          var i :| 0 <= i < |xs| && xs[i] == x;
          if i < n {
            assert xs[..n][i] == x;
          }
        }
      }
    }
  }

  /** A subset is no larger than its superset. */
  lemma {:induction false} SubsetCardinality(a: set<string>, b: set<string>)
    requires a <= b
    ensures |a| <= |b|
  {
    if a != {} {
      var x :| x in a;
      SubsetCardinality(a - {x}, b - {x});
    }
  }

  // ---------------------------------------------------------------- next page

  /** `"/".join(url.split("/")[:3])`: scheme, empty part and host of a URL. */
  function Domain(url: string): string {
    var parts := Split(url, "/");
    Join(parts[..if |parts| < 3 then |parts| else 3], "/")
  }

  /** The next results page: a site-relative href is put under the current page's domain; any other is used as it is. */
  function NextPageUrl(current: string, href: string): (r: string)
    ensures !StartsWith(href, "/") ==> r == href
    ensures StartsWith(href, "/") ==> EndsWith(r, href) && r[..|r| - |href|] == Domain(current)
  {
    if StartsWith(href, "/") then Domain(current) + href else href
  }

  /** The domain of "scheme//host/path" is "scheme//host". */
  lemma DomainOf(scheme: string, host: string, path: string)
    requires !Contains(scheme, "/") && !Contains(host, "/")
    requires path == "" || path[0] == '/'
    ensures Domain(scheme + "//" + host + path) == scheme + "//" + host
  {
    var tail := UrlParts(scheme, host, path);
    var parts := Split(scheme + "//" + host + path, "/");
    assert parts[..3] == [scheme, "", host];
    assert Join([host], "/") == host;
    assert Join(["", host], "/") == "" + "/" + host;
  }

  /** Split at "/", "scheme//host/path" starts with the scheme, an empty part and the host. */
  lemma UrlParts(scheme: string, host: string, path: string) returns (tail: seq<string>)
    requires !Contains(scheme, "/") && !Contains(host, "/")
    requires path == "" || path[0] == '/'
    ensures Split(scheme + "//" + host + path, "/") == [scheme, "", host] + tail
  {
    var hp := host + path;
    assert scheme + "//" + host + path == scheme + "/" + ("/" + hp);
    SplitAtFirst(scheme, '/', "/" + hp);
    CharFree("", '/');
    assert "/" + hp == "" + "/" + hp;
    SplitAtFirst("", '/', hp);
    tail := HostFirst(host, path);
  }

  /** Split at "/", a host followed by an empty or rooted path starts with the host. */
  lemma HostFirst(host: string, path: string) returns (tail: seq<string>)
    requires !Contains(host, "/")
    requires path == "" || path[0] == '/'
    ensures Split(host + path, "/") == [host] + tail
  {
    if path == "" {
      assert host + path == host;
      FindSpec(host, "/");
      tail := [];
    } else {
      assert host + path == host + "/" + path[1..];
      SplitAtFirst(host, '/', path[1..]);
      tail := Split(path[1..], "/");
    }
  }

  /** On a page "scheme//host/path", a site-relative href leads to "scheme//host" followed by the href. */
  lemma NextPageOnSameHost(scheme: string, host: string, path: string, href: string)
    requires !Contains(scheme, "/") && !Contains(host, "/")
    requires path == "" || path[0] == '/'
    requires StartsWith(href, "/")
    ensures NextPageUrl(scheme + "//" + host + path, href) == scheme + "//" + host + href
  {
    DomainOf(scheme, host, path);
  }
}
