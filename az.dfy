/**
 * build/lib/az.py: the text rules of the Arizona job-connection scraper,
 * written inline in its page loop: the split of a detail page's trimmed
 * address into street, municipality and zip code, where a missing part is
 * the empty string, and the address of the next results page on the fixed
 * host.
 */
module Az {
  import opened Wrappers
  import opened PyStr
  import Ajc

  /** The host the scraper reads, "https://www.azjobconnection.gov", by its scheme and name. */
  const Scheme: string := "https:"
  const HostName: string := "www.azjobconnection.gov"
  const Host: string := Scheme + "//" + HostName

  /** `street_address`, `municipality` and `zip_code` of one notice; "" where the text has no such part. */
  datatype AzAddress = AzAddress(street: string, municipality: string, zip: string)

  /**
   * The address split: the page text is trimmed; its first line is the
   * street, as it is; a second line "City, State Zip" gives the
   * municipality before its first comma and, as zip code, the last
   * space-separated token of the trimmed text between its first and second
   * comma when there is more than one.
   */
  function SplitAddress(inner: string): (r: AzAddress)
    ensures !Contains(r.street, "\n") && !Contains(r.zip, " ")
    ensures !Contains(Strip(inner), "\n") ==> r.municipality == "" && r.zip == ""
  {
    var text := Strip(inner);
    var parts := Split(text, "\n");
    SplitPiecesFree(text, "\n");
    SplitMany(text, "\n");
    var street := parts[0];
    if |parts| > 1 then
      var cityStateZip := Split(parts[1], ",");
      var municipality := Strip(cityStateZip[0]);
      if |cityStateZip| > 1 then
        var stateZip := Split(Strip(cityStateZip[1]), " ");
        LastPieceEnds(Strip(cityStateZip[1]), " ");
        AzAddress(street, municipality, if |stateZip| > 1 then Last(stateZip) else "")
      else AzAddress(street, municipality, "")
    else AzAddress(street, "", "")
  }

  /**
   * On a non-empty address, this split and the job-connection one of
   * src/scrape_ajc.py agree up to their conventions: the same street once
   * trimmed, and the same municipality and zip code, "" standing for a
   * missing one.
   */
  lemma AgreesWithAjc(inner: string, state: string)
    requires Strip(inner) != ""
    ensures var a := SplitAddress(inner);
      var b := Ajc.SplitAddress(Some(Strip(inner)), state);
      b.street == Some(Strip(a.street)) &&
      a.municipality == b.municipality.GetOr("") &&
      a.zip == b.zip.GetOr("")
  {
    var text := Strip(inner);
    var parts := Split(text, "\n");
    SplitFirst(text, "\n");
    if |parts| > 1 {
      var cityStateZip := Split(parts[1], ",");
      if |cityStateZip| > 1 {
        var seg := Strip(cityStateZip[1]);
        SplitMany(seg, " ");
        RSplitOnceSpec(seg, ' ');
      }
    }
  }

  /** The next results page: the href on the fixed host. */
  function NextPageUrl(href: string): (r: string)
    ensures StartsWith(r, Host) && r[|Host|..] == href
  {
    Host + href
  }

  /**
   * For a site-relative href on a page of the host, the fixed host gives
   * the address src/scrape_ajc.py computes from the current page.
   */
  lemma NextPageMatchesAjc(path: string, href: string)
    requires path == "" || path[0] == '/'
    requires StartsWith(href, "/")
    ensures NextPageUrl(href) == Ajc.NextPageUrl(Host + path, href)
  {
    CharFree(Scheme, '/');
    CharFree(HostName, '/');
    Ajc.NextPageOnSameHost(Scheme, HostName, path, href);
  }
}
