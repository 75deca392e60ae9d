# OLX property scraper — a Dafny model

This project models the scraper in `src/scrape_olx.py`. The scraper collects
property ads for João Pessoa from OLX.

- It walks the paginated listing, one page after another. Page 1 is the bare
  listing URL; page n is that URL with `?o=n`.
- On each listing page it picks the links of the ad titles. It keeps only
  links that begin with `http`, cuts each one at its query string and drops
  repeated links.
- It fetches every ad page and builds one record from it. The record starts
  with the ad's URL. The fields of the page's JSON-LD block are merged in over
  it. A title, a digits-only price, a location and a description taken from
  fixed page elements are then added, each only where no field of that name
  exists yet.
- It stops when a listing page fails to load, when a page shows no link to the
  next page, or after `max_pages` pages. A failed ad is skipped and the crawl
  goes on. When parsing a listing page raises, nothing catches the exception:
  the run ends without returning anything.
- It saves the records as JSON. When there is at least one record it also
  writes a CSV file. The CSV header is the sorted union of all record keys.

The model is split into six modules:

- `Wrappers`: the `Option` and `Result` types.
- `Text`: the string operations the crawler uses.
  - `startswith` and the `in` substring test.
  - `split("?")[0]`, which cuts a link at its query.
  - The `[^0-9]` deletion applied to prices.
  - `str(n)` for page numbers.
- `Listing`: `parse_listing`.
- `Property`: `parse_property`.
- `Crawl`: `scrape_all`.
- `Persist`: `save_data`.

Each routine that loops or mutates state is a method. Each method is proved
equal to a specification function: `Dedup(Candidates(..))`, `RecordOf`,
`AdsOf`, `Scraped` and `CsvOf`. The scraper's promises are stated as lemmas
about those functions.

The network and the HTML library are parameters of the model. A `Web` value
gives three things:

- the outcome of `fetch` for each URL: the page text or a network error;
- the `href` attributes of the ad-title anchors that BeautifulSoup selects on a
  listing page, or `None` when parsing the page raises;
- an `AdPage` view of an ad page. This view holds the decoded JSON-LD object,
  if the page has one and it decodes to an object, and the stripped text of
  each fallback element that was found. It is `None` when examining the page
  raises.

Four behaviours of the code are easy to misread, and the model keeps them as
written:

- An empty result writes the JSON file and no CSV file, not even a header row
  (`CsvOf`).
- A JSON-LD object with a `url` key replaces the ad's own URL, even with an
  empty string. So a record always has a `url` field (`UrlField`), but that
  field is not always the ad's non-empty address.
- The next-page test is a substring test. A page containing `?o=21` also
  contains the marker for page 2 (`MarkerMatchesLongerNumbers`).
- The link test only checks that the href begins with the four letters
  `http`. An href such as `http-guide.html` is kept although it is not an
  absolute URL (`RelativeNameQualifies`).

## Model

| member | source | states |
|---|---|---|
| `Text.StartsWith` | src/scrape_olx.py:39 | `startswith` holds exactly when the string is the prefix followed by some rest |
| `Text.Contains` | src/scrape_olx.py:101 | Python's `t in s` holds exactly when `t` occurs in `s` at some index |
| `Text.StripQuery` | src/scrape_olx.py:40 | the part before the first `?`: a prefix of the href, free of `?`, followed in the href by `?` when shorter |
| `Text.StripQueryKeepsPrefix` | src/scrape_olx.py:39-40 | an `http` prefix survives the cut at `?`, so every kept link still begins with `http` |
| `Text.DigitsOnly` | src/scrape_olx.py:67 | the filtered price holds only digits and is no longer than the text |
| `Text.DigitsOnlyCounts` | src/scrape_olx.py:67 | each digit is kept as many times as it occurs; no other character is kept |
| `Text.DigitsOnlyAppend` | src/scrape_olx.py:67 | the filter works left to right: filtering a concatenation concatenates the filtered parts |
| `Text.DigitsOnlyKeepsDigits` | src/scrape_olx.py:67 | a string of digits passes through unchanged |
| `Text.DigitsOnlyNoDigits` | src/scrape_olx.py:67 | text without digits normalises to the empty string |
| `Text.SeparatorsConflated` | src/scrape_olx.py:65-67 | separators are dropped wherever they stand, so `"350.000,50"` and `"35000050"` give the same price |
| `Text.PriceShape` | src/scrape_olx.py:65-67 | a currency sign, a digit group, a dot and a digit group normalise to the two groups joined |
| `Text.PriceExample` | src/scrape_olx.py:65-68 | the price text `"R$ 350.000"` becomes `"350000"` |
| `Text.DecimalString` | src/scrape_olx.py:86 | `str(page)` is a non-empty string of digits, with a leading `0` only for zero and one digit exactly below ten |
| `Text.DecimalRoundTrip` | src/scrape_olx.py:86 | reading back the rendered page number gives the number |
| `Text.DecimalStringInjective` | src/scrape_olx.py:86 | distinct page numbers render differently |
| `Listing.Qualifies` | src/scrape_olx.py:38-39 | an anchor is kept exactly when it has an href that is `http` followed by anything, relative names included |
| `Listing.RelativeNameQualifies` | src/scrape_olx.py:39 | `http-guide.html` is kept; a path-only href and a missing href are not |
| `Listing.Candidates` | src/scrape_olx.py:36-40 | the collected links are no more than the anchors, each starts with `http` and has no `?` |
| `Listing.CandidatesFromAnchors` | src/scrape_olx.py:36-40 | every collected link is the cut form of a qualifying anchor href |
| `Listing.CandidatesComplete` | src/scrape_olx.py:36-40 | the cut form of every qualifying href is collected |
| `Listing.CandidatesAppend` | src/scrape_olx.py:37-40 | the links of two runs of anchors are the first run's followed by the second's, so anchor order is kept |
| `Listing.CandidatesCons` | src/scrape_olx.py:37-40 | each anchor adds exactly one link, its cut href, when it qualifies and none otherwise, before the later anchors' links |
| `Listing.Dedup` | src/scrape_olx.py:41 | `list(dict.fromkeys(..))` has no repeats and exactly the elements of its input |
| `Listing.DedupFirstSeenOrder` | src/scrape_olx.py:41 | the kept elements are in the order of their first occurrences |
| `Listing.ParseListing` | src/scrape_olx.py:33-41 | the loop's result is the de-duplicated candidates: no repeats, first-seen order, beginning with `http`, query-free, each from an anchor, none lost |
| `Property.SetDefault` | src/scrape_olx.py:63 | `setdefault` adds the key with the value only when absent and changes no existing field |
| `Property.SetDefaultBelow` | src/scrape_olx.py:62-77 | a `setdefault` on a record slides the new field under every field already written |
| `Property.ParseProperty` | src/scrape_olx.py:44-79 | the record built step by step equals the precedence form: fallbacks under the URL under the JSON-LD fields |
| `Property.PriceText` | src/scrape_olx.py:61-68 | a price text exists exactly when the `h2` was found, and it is digits only, no longer than the heading |
| `Property.FallbackFields` | src/scrape_olx.py:60-77 | the fallbacks use only the four names, each present exactly when its element was found and holding that element's text; the price holds the digits of the `h2` text |
| `Property.RecordOf` | src/scrape_olx.py:47-77 | the record always has `url`; its keys are `url`, the JSON-LD keys and the keys of the fallbacks found |
| `Property.UrlField` | src/scrape_olx.py:47-55 | `url` is always present; it is the ad URL unless the JSON-LD object has a `url` |
| `Property.StructuredDataWins` | src/scrape_olx.py:55-77 | JSON-LD fields are kept as decoded; a fallback only fills a name nobody has written |
| `Property.MissingElementLeavesFieldAbsent` | src/scrape_olx.py:60-77 | a missing element leaves its field absent unless JSON-LD supplies it |
| `Property.WithoutStructuredData` | src/scrape_olx.py:47-77 | without usable JSON-LD the record is the URL plus the fallbacks found |
| `Property.FallbackPriceIsDigits` | src/scrape_olx.py:64-68 | a price taken from the `h2` is the digits of its text, in order |
| `Crawl.ListingUrlShape` | src/scrape_olx.py:86 | every listing URL begins with the base URL; only page 1 uses the base URL itself; the others add `?o=` followed by exactly the decimal digits of the page number |
| `Crawl.AdOutcome` | src/scrape_olx.py:93-99 | an ad gives at most one record, exactly when its fetch and its parse succeed; that record is the one `parse_property` builds from the ad page and its link, and has `url` |
| `Crawl.ContinuesMeansMarker` | src/scrape_olx.py:92-102 | after a loaded page the crawl goes on exactly when the page parsed and the next page's query occurs in its HTML |
| `Crawl.AdsOf` | src/scrape_olx.py:92-99 | a page yields at most one record per ad link |
| `Crawl.ScrapeAds` | src/scrape_olx.py:92-99 | the inner loop's records are `AdsOf` the links |
| `Crawl.ScrapePage` | src/scrape_olx.py:86-102 | one page pass raises exactly when parsing the listing page raises; otherwise it yields that page's records; it continues exactly when the page loaded, parsed and shows the next-page marker |
| `Crawl.ScrapeAll` | src/scrape_olx.py:82-103 | the run ends with no list exactly when `Aborted`; otherwise the returned list is `Scraped`; the listing pages requested are `RequestedPages` |
| `Crawl.AbortedAtLastPage` | src/scrape_olx.py:84-102 | the run is lost exactly when the last listing page it requests raises while being parsed |
| `Crawl.AdsOfAppend` | src/scrape_olx.py:92-99 | the records of consecutive runs of links follow each other |
| `Crawl.FailedAdSkipped` | src/scrape_olx.py:93-99 | a failing ad is skipped and the other ads' records are unaffected |
| `Crawl.AdsCarryUrl` | src/scrape_olx.py:92-96 | every ad record has a `url` field |
| `Crawl.PagesConsecutive` | src/scrape_olx.py:85 | the requested pages are consecutive from the first one and never exceed the bound |
| `Crawl.PagesReached` | src/scrape_olx.py:85-102 | a page is requested exactly when it is within the bound and every earlier page showed the marker |
| `Crawl.StopReason` | src/scrape_olx.py:87-102 | every requested page but the last showed the marker; the last did not, unless the bound was reached |
| `Crawl.RecordsAlongPages` | src/scrape_olx.py:84-103 | the result is the requested pages' records, page after page |
| `Crawl.StopIsFinal` | src/scrape_olx.py:100-102 | once a page stops the crawl, a larger bound changes nothing |
| `Crawl.FailedListingAddsNothing` | src/scrape_olx.py:87-91 | a listing page that fails to load contributes no records |
| `Crawl.FailedListingKeepsEarlier` | src/scrape_olx.py:87-91 | a failed listing page ends the crawl, keeping the records of the pages before it |
| `Crawl.SinglePage` | src/scrape_olx.py:100-102 | with no marker on page 1, or a bound of 1, only page 1 is read |
| `Crawl.NoCrossPageDedup` | src/scrape_olx.py:92-96 | an ad found on pages 1 and 2 is returned twice |
| `Crawl.ScrapedCarryUrl` | src/scrape_olx.py:84-103 | every returned record has a `url` field |
| `Crawl.ListingUrlInjective` | src/scrape_olx.py:86 | distinct page numbers give distinct listing URLs |
| `Crawl.DefaultBound` | src/scrape_olx.py:82-85 | with the default bound, one to five listing pages are requested |
| `Crawl.MarkerMatchesLongerNumbers` | src/scrape_olx.py:101 | HTML containing the marker for page 10n+d also contains the marker for page n |
| `Persist.BelowIrreflexive` | src/scrape_olx.py:114 | no key sorts before itself |
| `Persist.BelowTransitive` | src/scrape_olx.py:114 | the string order is transitive |
| `Persist.BelowTotal` | src/scrape_olx.py:114 | any two different keys are ordered one way or the other |
| `Persist.SortedKeys` | src/scrape_olx.py:114 | `sorted` of the key set is strictly ascending and holds exactly its elements |
| `Persist.AscendingNoDuplicates` | src/scrape_olx.py:114 | the sorted header repeats no column |
| `Persist.KeyUnion` | src/scrape_olx.py:114 | a key is in the union exactly when some record has it |
| `Persist.Row` | src/scrape_olx.py:118-119 | a CSV row has one cell per header column |
| `Persist.Rows` | src/scrape_olx.py:118-119 | there is one data row per record, row i written from record i |
| `Persist.RowKeepsColumns` | src/scrape_olx.py:115-119 | reading a row back gives exactly the record's fields that have a column |
| `Persist.RowRoundTrip` | src/scrape_olx.py:115-119 | a record whose keys are all columns is recovered from its row |
| `Persist.CsvOf` | src/scrape_olx.py:112-119 | no CSV exactly for an empty list; otherwise a sorted, repeat-free header covering every record key and nothing else, and one row per record |
| `Persist.CsvRowsRoundTrip` | src/scrape_olx.py:112-119 | every record is recovered from its CSV row, so `DictWriter` never meets an unknown key |
| `Persist.HeaderIgnoresOrder` | src/scrape_olx.py:114 | the header does not depend on the order of the records |
| `Persist.ScrapedHeaderHasUrl` | src/scrape_olx.py:114 | a non-empty crawl result always has a `url` column |
| `Persist.SaveData` | src/scrape_olx.py:106-119 | the JSON file holds the whole list and the CSV file is `CsvOf` the list |

## Left out

- `fetch`, its request headers and its 30-second timeout are not modelled. The
  `Web` parameter gives each URL's outcome, and the network is not modelled
  further.
- `Web.fetch` is a fixed function of the URL: the model sees one snapshot of
  the site. An ad fetched from two listing pages gets the same answer both
  times, and `Crawl.NoCrossPageDedup` relies on this. A site that changes
  between requests is not modelled.
- `Property.RecordOf` gives a map, so the insertion order of the keys (`url`,
  then the JSON-LD keys, then the fallbacks) is dropped. `json.dump` writes the
  keys in that order; the model keeps only the key set and the values.
- BeautifulSoup parsing, CSS selection and `get_text` (stripping, and the
  joining of the description's text with spaces) are not modelled. The model
  starts from what they return: anchor hrefs, and an `AdPage` with the element
  texts already stripped.
- `json.loads` is not modelled. A JSON-LD block that is missing, is not valid
  JSON or is not an object appears as an absent `structured` field. JSON
  numbers are modelled as integers; floating point is left out.
- File output is not modelled: the `data` directory, the file names, UTF-8
  encoding, JSON indentation and the textual CSV rendering of values. A file
  is modelled by the value it holds. A missing cell stands for `DictWriter`'s
  empty `restval`.
- `time.sleep(delay)` after each appended record and the progress and error
  messages have no effect on the data and are not modelled.
- The `__main__` entry point is not modelled. It saves what `scrape_all`
  returns, so a run that ends with the exception (`Crawl.Aborted`) saves no
  file at all.
- The list of requested pages that `Crawl.ScrapeAll` produces is a ghost
  output. It records the order of fetches and is not a value the scraper
  returns.
- `generate_dashboard.py` is not part of this model.
