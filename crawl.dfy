/**
  The crawl loop (`scrape_all`). The network and the HTML library are
  parameters: a `Web` gives the outcome of fetching each URL, the title
  anchors' hrefs of each listing page, and the `AdPage` view of each ad page.
 */
module Crawl {
  import opened Wrappers
  import opened Text
  import opened Listing
  import opened Property

  /** A non-success status, a timeout or a transport failure of `fetch`. */
  datatype FetchError = NetworkError

  datatype Web = Web(
    fetch: string -> Result<string, FetchError>,
    // `None` when the HTML library raises while the listing page is parsed.
    anchors: string -> Option<seq<Option<string>>>,
    // `None` when the HTML library raises while the ad page is examined.
    adPage: string -> Option<AdPage>)

  const ListingBase := "https://www.olx.com.br/imoveis/estado-pb/paraiba/joao-pessoa"

  /** The page bound `scrape_all` uses when its caller gives none. */
  const DefaultMaxPages := 5

  /** The query of listing page `page`: `?o=` and the page number. It is
      also the marker searched for on the page before it. */
  function PageQuery(page: nat): string {
    "?o=" + DecimalString(page)
  }

  /** Page 1 is the bare listing URL; page n > 1 carries `?o=n`. */
  function ListingUrl(page: nat): string {
    if page == 1 then ListingBase else ListingBase + PageQuery(page)
  }

  /** Every listing URL extends the base one, and only page 1 requests the
      base URL itself; the others add the `?o=` query. */
  lemma ListingUrlShape(page: nat)
    ensures StartsWith(ListingUrl(page), ListingBase)
    ensures ListingUrl(page) == ListingBase <==> page == 1
    ensures page != 1 ==> StartsWith(ListingUrl(page)[|ListingBase|..], "?o=")
    ensures page != 1 ==> ListingUrl(page)[|ListingBase| + 3..] == DecimalString(page)
    ensures page != 1 ==> AllDigits(ListingUrl(page)[|ListingBase| + 3..])
    ensures page != 1 ==> DecimalValue(ListingUrl(page)[|ListingBase| + 3..]) == page
  {
    DecimalRoundTrip(page);
  }

  /** The record one ad contributes: none when its fetch fails or the
      library raises on its page. */
  function AdOutcome(web: Web, link: string): (r: seq<Record>)
    ensures |r| <= 1
    ensures |r| == 1 <==> web.fetch(link).Success? && web.adPage(web.fetch(link).value).Some?
    ensures |r| == 1 ==> UrlKey in r[0]
    ensures |r| == 1 ==> r[0] == RecordOf(web.adPage(web.fetch(link).value).value, link)
  {
    match web.fetch(link)
    case Failure(_) => []
    case Success(html) =>
      match web.adPage(html)
      case None => []
      case Some(page) => [RecordOf(page, link)]
  }

  /** The records of a run over `links`, in link order. */
  function AdsOf(web: Web, links: seq<string>): (r: seq<Record>)
    ensures |r| <= |links|
  {
    if links == [] then []
    else AdsOf(web, links[..|links| - 1]) + AdOutcome(web, links[|links| - 1])
  }

  /** Listing page `page` was fetched but the HTML library raised while its
      links were parsed. Nothing catches that exception in `scrape_all`. */
  predicate ListingRaises(web: Web, page: nat) {
    web.fetch(ListingUrl(page)).Success?
    && web.anchors(web.fetch(ListingUrl(page)).value).None?
  }

  /** After listing page `page` the crawl goes on exactly when the page was
      fetched and parsed and its HTML mentions the next page's query. */
  predicate Continues(web: Web, page: nat) {
    match web.fetch(ListingUrl(page))
    case Failure(_) => false
    case Success(html) => web.anchors(html).Some? && Contains(html, PageQuery(page + 1))
  }

  /** The next-page test passes exactly when the page loaded, its links
      parsed, and the next page's query occurs somewhere in its HTML. */
  lemma ContinuesMeansMarker(web: Web, page: nat, html: string, marker: string)
    requires web.fetch(ListingUrl(page)) == Success(html) && marker == PageQuery(page + 1)
    ensures Continues(web, page) <==> web.anchors(html).Some? && exists i :: OccursAt(html, marker, i)
  {
  }

  /** The records listing page `page` contributes: none when its fetch fails
      (or when parsing it raises, which ends the run without a result). */
  function PageRecords(web: Web, page: nat): seq<Record> {
    match web.fetch(ListingUrl(page))
    case Failure(_) => []
    case Success(html) =>
      match web.anchors(html)
      case None => []
      case Some(hrefs) => AdsOf(web, Dedup(Candidates(hrefs)))
  }

  /** The listing pages requested from page `page` on, with at most
      `maxPages` in all. */
  function PagesFrom(web: Web, page: nat, maxPages: int): seq<nat>
    requires 1 <= page
    decreases maxPages - page
  {
    if maxPages < page then []
    else if Continues(web, page) then [page] + PagesFrom(web, page + 1, maxPages)
    else [page]
  }

  /** The records gathered from page `page` on, with at most `maxPages`
      pages in all. */
  function RecordsFrom(web: Web, page: nat, maxPages: int): seq<Record>
    requires 1 <= page
    decreases maxPages - page
  {
    if maxPages < page then []
    else if Continues(web, page) then PageRecords(web, page) + RecordsFrom(web, page + 1, maxPages)
    else PageRecords(web, page)
  }

  /** The listing pages `scrape_all` requests under the bound `maxPages`. */
  function RequestedPages(web: Web, maxPages: int): seq<nat> {
    PagesFrom(web, 1, maxPages)
  }

  /** The list `scrape_all` returns under the bound `maxPages`, when it
      returns at all. */
  function Scraped(web: Web, maxPages: int): seq<Record> {
    RecordsFrom(web, 1, maxPages)
  }

  /** Parsing one of the listing pages requested from page `page` on raises. */
  predicate AbortsFrom(web: Web, page: nat, maxPages: int)
    requires 1 <= page
    decreases maxPages - page
  {
    page <= maxPages
    && (ListingRaises(web, page) || (Continues(web, page) && AbortsFrom(web, page + 1, maxPages)))
  }

  /** `scrape_all` ends with the exception instead of a list. */
  predicate Aborted(web: Web, maxPages: int) {
    AbortsFrom(web, 1, maxPages)
  }

  lemma AppendAssociative<T>(a: seq<T>, b: seq<T>, c: seq<T>)
    ensures (a + b) + c == a + (b + c)
  {
  }

  /** The inner loop of `scrape_all`: each link fetched and parsed in turn;
      a link whose fetch or parse fails adds nothing and the loop goes on. */
  method ScrapeAds(web: Web, links: seq<string>) returns (records: seq<Record>)
    ensures records == AdsOf(web, links)
  {
    records := [];
    for n := 0 to |links|
      invariant records == AdsOf(web, links[..n])
    {
      var link := links[n];
      var adHtml := web.fetch(link);
      if adHtml.Success? {
        var adPage := web.adPage(adHtml.value);
        if adPage.Some? {
          var data := ParseProperty(adPage.value, link);
          records := records + [data];
        }
      }
      assert links[..n + 1][..n] == links[..n];
    }
    assert links[..|links|] == links;
  }

  /** One pass of the page loop of `scrape_all`: the listing page fetched,
      its ad links parsed and every ad scraped. `more` tells whether the loop
      goes on to the next page; a failed fetch gives no records and stops it.
      `ads` is `None` when parsing the listing page raises. */
  method ScrapePage(web: Web, page: nat) returns (ads: Option<seq<Record>>, more: bool)
    ensures ads.None? <==> ListingRaises(web, page)
    ensures ads.Some? ==> ads.value == PageRecords(web, page)
    ensures more <==> Continues(web, page)
  {
    var fetched := web.fetch(ListingUrl(page));
    if fetched.Failure? {
      return Some([]), false;
    }
    var html := fetched.value;
    var hrefs := web.anchors(html);
    if hrefs.None? {
      return None, false;
    }
    var links := ParseListing(hrefs.value);
    var records := ScrapeAds(web, links);
    ads := Some(records);
    more := Contains(html, PageQuery(page + 1));
  }

  /** `scrape_all`: listing pages in turn, from page 1 up to `maxPages`,
      until a listing fetch fails or a page shows no link to the next one.
      `results` is `None` when parsing a listing page raises: the exception
      leaves `scrape_all` and the records gathered so far are lost.
      `requested` lists the listing pages fetched, in order. */
  method ScrapeAll(web: Web, maxPages: int) returns (results: Option<seq<Record>>, ghost requested: seq<nat>)
    ensures results.None? <==> Aborted(web, maxPages)
    ensures results.Some? ==> results.value == Scraped(web, maxPages)
    ensures requested == RequestedPages(web, maxPages)
  {
    var found: seq<Record> := [];
    requested := [];
    var page: nat := 1;
    while page <= maxPages
      invariant 1 <= page
      invariant found + RecordsFrom(web, page, maxPages) == Scraped(web, maxPages)
      invariant requested + PagesFrom(web, page, maxPages) == RequestedPages(web, maxPages)
      invariant Aborted(web, maxPages) == AbortsFrom(web, page, maxPages)
      decreases maxPages - page
    {
      ghost var earlier, earlierPages := found, requested;
      requested := requested + [page];
      var ads, more := ScrapePage(web, page);
      if ads.None? {
        return None, requested;
      }
      found := found + ads.value;
      if !more {
        break;
      }
      AppendAssociative(earlier, ads.value, RecordsFrom(web, page + 1, maxPages));
      AppendAssociative(earlierPages, [page], PagesFrom(web, page + 1, maxPages));
      page := page + 1;
    }
    results := Some(found);
  }

  /** The records of consecutive runs of links follow each other. */
  lemma {:induction false} AdsOfAppend(web: Web, a: seq<string>, b: seq<string>)
    ensures AdsOf(web, a + b) == AdsOf(web, a) + AdsOf(web, b)
    decreases |b|
  {
    if b == [] {
      assert a + b == a;
    } else {
      var b' := b[..|b| - 1];
      assert (a + b)[..|a + b| - 1] == a + b';
      assert (a + b)[|a + b| - 1] == b[|b| - 1];
      AdsOfAppend(web, a, b');
    }
  }

  /** An ad whose fetch or parse fails is skipped and the others are
      unaffected: the run is the run without that link. */
  lemma FailedAdSkipped(web: Web, links: seq<string>, k: nat)
    requires k < |links| && AdOutcome(web, links[k]) == []
    ensures AdsOf(web, links) == AdsOf(web, links[..k] + links[k + 1..])
  {
    assert links == links[..k] + [links[k]] + links[k + 1..];
    AdsOfAppend(web, links[..k] + [links[k]], links[k + 1..]);
    AdsOfAppend(web, links[..k], [links[k]]);
    AdsOfAppend(web, links[..k], links[k + 1..]);
  }

  /** Every ad record carries the `url` field. */
  lemma {:induction false} AdsCarryUrl(web: Web, links: seq<string>)
    ensures forall i :: 0 <= i < |AdsOf(web, links)| ==> UrlKey in AdsOf(web, links)[i]
  {
    if links != [] {
      var link := links[|links| - 1];
      AdsCarryUrl(web, links[..|links| - 1]);
      if web.fetch(link).Success? && web.adPage(web.fetch(link).value).Some? {
        UrlField(web.adPage(web.fetch(link).value).value, link);
      }
    }
  }

  /** The listing pages requested from `page` on are consecutive and never
      go past `maxPages`; at least one is requested when `page <= maxPages`. */
  lemma {:induction false} PagesConsecutive(web: Web, page: nat, maxPages: int)
    requires 1 <= page
    ensures forall i :: 0 <= i < |PagesFrom(web, page, maxPages)| ==> PagesFrom(web, page, maxPages)[i] == page + i
    ensures page <= maxPages ==> 1 <= |PagesFrom(web, page, maxPages)| <= maxPages - page + 1
    ensures maxPages < page ==> PagesFrom(web, page, maxPages) == []
    decreases maxPages - page
  {
    if page <= maxPages && Continues(web, page) {
      var rest := PagesFrom(web, page + 1, maxPages);
      PagesConsecutive(web, page + 1, maxPages);
      assert PagesFrom(web, page, maxPages) == [page] + rest;
    }
  }

  /** Exactly the pages up to `maxPages` whose predecessors all showed the
      next-page marker are requested: the loop stops at the first page that
      fails to load or has no marker, or after `maxPages`. */
  lemma {:induction false} PagesReached(web: Web, page: nat, maxPages: int, p: int)
    requires 1 <= page
    ensures p in PagesFrom(web, page, maxPages)
      <==> page <= p <= maxPages && forall q :: page <= q < p ==> Continues(web, q)
    decreases maxPages - page
  {
    if page <= maxPages && Continues(web, page) {
      PagesReached(web, page + 1, maxPages, p);
      assert PagesFrom(web, page, maxPages) == [page] + PagesFrom(web, page + 1, maxPages);
      if page < p && forall q :: page + 1 <= q < p ==> Continues(web, q) {
        assert forall q :: page <= q < p ==> Continues(web, q) by {
          forall q | page <= q < p ensures Continues(web, q) {
            if q != page {
              assert page + 1 <= q < p;
            }
          }
        }
      }
    }
  }

  /** Every requested page but the last showed the marker; the last one did
      not, unless the page bound was reached. */
  lemma {:induction false} StopReason(web: Web, page: nat, maxPages: int)
    requires 1 <= page
    ensures forall q :: page <= q < page + |PagesFrom(web, page, maxPages)| - 1 ==> Continues(web, q)
    ensures 0 < |PagesFrom(web, page, maxPages)| && page + |PagesFrom(web, page, maxPages)| - 1 < maxPages
      ==> !Continues(web, page + |PagesFrom(web, page, maxPages)| - 1)
    decreases maxPages - page
  {
    if page <= maxPages && Continues(web, page) {
      StopReason(web, page + 1, maxPages);
    }
  }

  /** The run is lost exactly when the last listing page it requests raises
      while being parsed: the pages before it all showed the marker. */
  lemma {:induction false} AbortedAtLastPage(web: Web, page: nat, maxPages: int)
    requires 1 <= page
    ensures AbortsFrom(web, page, maxPages)
      <==> 0 < |PagesFrom(web, page, maxPages)| && ListingRaises(web, page + |PagesFrom(web, page, maxPages)| - 1)
    decreases maxPages - page
  {
    if page <= maxPages && Continues(web, page) {
      AbortedAtLastPage(web, page + 1, maxPages);
    }
  }

  /** The concatenated records of the listing pages `pages`. */
  function RecordsOfPages(web: Web, pages: seq<nat>): seq<Record> {
    if pages == [] then [] else PageRecords(web, pages[0]) + RecordsOfPages(web, pages[1..])
  }

  lemma RecordsOfPagesCons(web: Web, p: nat, pages: seq<nat>)
    ensures RecordsOfPages(web, [p] + pages) == PageRecords(web, p) + RecordsOfPages(web, pages)
  {
  }

  /** The result is the records of the requested pages, page after page. */
  lemma {:induction false} RecordsAlongPages(web: Web, page: nat, maxPages: int)
    requires 1 <= page
    ensures RecordsFrom(web, page, maxPages) == RecordsOfPages(web, PagesFrom(web, page, maxPages))
    decreases maxPages - page
  {
    if page <= maxPages {
      if Continues(web, page) {
        RecordsAlongPages(web, page + 1, maxPages);
        RecordsOfPagesCons(web, page, PagesFrom(web, page + 1, maxPages));
      } else {
        RecordsOfPagesCons(web, page, []);
        assert [page] + [] == [page];
      }
    }
  }

  /** Once a page stops the crawl, a larger page bound changes nothing. */
  lemma {:induction false} StopIsFinal(web: Web, page: nat, p: nat, maxPages: int)
    requires 1 <= page <= p <= maxPages && !Continues(web, p)
    ensures RecordsFrom(web, page, maxPages) == RecordsFrom(web, page, p)
    ensures PagesFrom(web, page, maxPages) == PagesFrom(web, page, p)
    decreases p - page
  {
    if page < p && Continues(web, page) {
      StopIsFinal(web, page + 1, p, maxPages);
    }
  }

  /** A listing page that fails to load contributes no records. */
  lemma {:induction false} FailedListingAddsNothing(web: Web, page: nat, p: nat)
    requires 1 <= page <= p && web.fetch(ListingUrl(p)).Failure?
    ensures RecordsFrom(web, page, p) == RecordsFrom(web, page, p - 1)
    decreases p - page
  {
    if page < p && Continues(web, page) {
      FailedListingAddsNothing(web, page + 1, p);
    }
  }

  /** When listing page `p` fails to load the crawl stops there and returns
      what the earlier pages gave. */
  lemma FailedListingKeepsEarlier(web: Web, p: nat, maxPages: int)
    requires 1 <= p <= maxPages && web.fetch(ListingUrl(p)).Failure?
    ensures Scraped(web, maxPages) == Scraped(web, p - 1)
    ensures RequestedPages(web, maxPages) == RequestedPages(web, p)
  {
    StopIsFinal(web, 1, p, maxPages);
    FailedListingAddsNothing(web, 1, p);
  }

  /** With no marker on page 1, or a bound of one page, only page 1 is read. */
  lemma SinglePage(web: Web, maxPages: int)
    requires 1 <= maxPages && (maxPages == 1 || !Continues(web, 1))
    ensures RequestedPages(web, maxPages) == [1]
    ensures Scraped(web, maxPages) == PageRecords(web, 1)
  {
  }

  /** Records are not de-duplicated across pages: an ad found on pages 1 and
      2 is returned twice. */
  lemma NoCrossPageDedup(web: Web, maxPages: int, r: Record)
    requires 2 <= maxPages && Continues(web, 1)
    requires r in PageRecords(web, 1) && r in PageRecords(web, 2)
    ensures multiset(Scraped(web, maxPages))[r] >= 2
  {
    var first, second := PageRecords(web, 1), PageRecords(web, 2);
    var rest := if Continues(web, 2) then RecordsFrom(web, 3, maxPages) else [];
    assert Scraped(web, maxPages) == first + (second + rest) by {
      assert RecordsFrom(web, 2, maxPages) == second + rest;
    }
    assert multiset(first)[r] >= 1 && multiset(second)[r] >= 1;
    assert multiset(first + (second + rest))[r] == multiset(first)[r] + multiset(second)[r] + multiset(rest)[r];
  }

  /** Every scraped record carries the `url` field. */
  lemma {:induction false} ScrapedCarryUrl(web: Web, page: nat, maxPages: int)
    requires 1 <= page
    ensures forall i :: 0 <= i < |RecordsFrom(web, page, maxPages)| ==> UrlKey in RecordsFrom(web, page, maxPages)[i]
    decreases maxPages - page
  {
    if page <= maxPages {
      var html := web.fetch(ListingUrl(page));
      if html.Success? && web.anchors(html.value).Some? {
        AdsCarryUrl(web, Dedup(Candidates(web.anchors(html.value).value)));
      }
      if Continues(web, page) {
        ScrapedCarryUrl(web, page + 1, maxPages);
      }
    }
  }

  /** Distinct page numbers give distinct listing URLs, so no listing page is
      fetched twice. */
  lemma ListingUrlInjective(m: nat, n: nat)
    requires 1 <= m && 1 <= n && ListingUrl(m) == ListingUrl(n)
    ensures m == n
  {
    if m != 1 && n != 1 {
      var b := |ListingBase|;
      assert PageQuery(m) == ListingUrl(m)[b..] && PageQuery(n) == ListingUrl(n)[b..];
      assert DecimalString(m) == PageQuery(m)[3..] && DecimalString(n) == PageQuery(n)[3..];
      DecimalStringInjective(m, n);
    }
  }

  /** With the default bound at most five listing pages are requested. */
  lemma DefaultBound(web: Web)
    ensures 1 <= |RequestedPages(web, DefaultMaxPages)| <= DefaultMaxPages
  {
    PagesConsecutive(web, 1, DefaultMaxPages);
  }

  /** The next-page test is a substring test, so a link to any page whose
      number extends `n` by one more digit (page 2 and pages 20 to 29, say)
      passes it for page `n` as well. */
  lemma MarkerMatchesLongerNumbers(html: string, n: nat, d: nat)
    requires 1 <= n && d < 10 && Contains(html, PageQuery(10 * n + d))
    ensures Contains(html, PageQuery(n))
  {
    var t := PageQuery(n);
    assert PageQuery(10 * n + d) == t + [DigitChar(d)] by {
      assert (10 * n + d) / 10 == n && (10 * n + d) % 10 == d;
    }
    var i :| OccursAt(html, PageQuery(10 * n + d), i);
    assert html[i..i + |t|] == html[i..i + |t| + 1][..|t|];
    assert OccursAt(html, t, i);
  }
}
