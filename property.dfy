/**
  Record assembly for one ad page (`parse_property`). What the HTML and JSON
  libraries find on the page is abstracted into an `AdPage`: the decoded
  JSON-LD object, if any, and the stripped text of each fallback element that
  was found.
 */
module Property {
  import opened Wrappers
  import opened Text

  /** A decoded JSON value. JSON numbers are modelled as integers only. */
  datatype Value =
    | JString(s: string)
    | JNumber(n: int)
    | JBool(b: bool)
    | JNull
    | JArray(items: seq<Value>)
    | JObject(fields: map<string, Value>)

  /** One scraped ad: field name to value. */
  type Record = map<string, Value>

  /** The parts of an ad page the extraction looks at.
      `structured` is the `<script type="application/ld+json">` block decoded
      to a JSON object; it is `None` when the block is missing, is not valid
      JSON, or decodes to anything but an object. The other four are the
      stripped texts of the first `h1`, the first `h2`, the first
      `span.sc-ge2uzh-0` and the first `div.sc-1sj73kh-0`, `None` when the
      page has no such element. */
  datatype AdPage = AdPage(
    structured: Option<map<string, Value>>,
    heading: Option<string>,
    priceHeading: Option<string>,
    locationSpan: Option<string>,
    descriptionDiv: Option<string>)

  const UrlKey := "url"
  const TitleKey := "title"
  const PriceKey := "price"
  const LocationKey := "location"
  const DescriptionKey := "description"

  /** The JSON-LD fields, or none at all. */
  function StructuredFields(page: AdPage): map<string, Value> {
    if page.structured.Some? then page.structured.value else map[]
  }

  /** The fallback field `key` added to `fields` when its element was found. */
  function AddFallback(fields: map<string, Value>, key: string, text: Option<string>): map<string, Value> {
    if text.Some? then fields[key := JString(text.value)] else fields
  }

  /** The price fallback: the `h2` text with every non-digit removed. */
  function PriceText(page: AdPage): (r: Option<string>)
    ensures r.Some? <==> page.priceHeading.Some?
    ensures r.Some? ==> AllDigits(r.value) && |r.value| <= |page.priceHeading.value|
  {
    if page.priceHeading.Some? then Some(DigitsOnly(page.priceHeading.value)) else None
  }

  /** The fallback fields of the elements that were found, before any
      precedence is applied. */
  function FallbackFields(page: AdPage): (r: map<string, Value>)
    ensures r.Keys <= {TitleKey, PriceKey, LocationKey, DescriptionKey}
    ensures TitleKey in r <==> page.heading.Some?
    ensures PriceKey in r <==> page.priceHeading.Some?
    ensures LocationKey in r <==> page.locationSpan.Some?
    ensures DescriptionKey in r <==> page.descriptionDiv.Some?
    ensures PriceKey in r ==> r[PriceKey].JString? && AllDigits(r[PriceKey].s)
    ensures TitleKey in r ==> r[TitleKey] == JString(page.heading.value)
    ensures PriceKey in r ==> r[PriceKey] == JString(DigitsOnly(page.priceHeading.value))
    ensures LocationKey in r ==> r[LocationKey] == JString(page.locationSpan.value)
    ensures DescriptionKey in r ==> r[DescriptionKey] == JString(page.descriptionDiv.value)
  {
    var title := AddFallback(map[], TitleKey, page.heading);
    var price := AddFallback(title, PriceKey, PriceText(page));
    var location := AddFallback(price, LocationKey, page.locationSpan);
    AddFallback(location, DescriptionKey, page.descriptionDiv)
  }

  /** The record of an ad, stated by precedence: a JSON-LD field beats the
      ad's own URL, which beats a fallback field of the same name. */
  function RecordOf(page: AdPage, url: string): (r: Record)
    ensures UrlKey in r
    ensures r.Keys == {UrlKey} + StructuredFields(page).Keys + FallbackFields(page).Keys
  {
    FallbackFields(page) + (map[UrlKey := JString(url)] + StructuredFields(page))
  }

  /** Python's `setdefault` on a dictionary: insert unless the key is already there. */
  function SetDefault(data: Record, key: string, v: Value): (r: Record)
    ensures r.Keys == data.Keys + {key}
    ensures forall k :: k in data ==> r[k] == data[k]
    ensures key !in data ==> r[key] == v
  {
    if key in data then data else data[key := v]
  }

  /** A `setdefault` on a layered record slips the new field under every
      layer that was written before it. */
  lemma SetDefaultBelow(below: Record, top: Record, key: string, v: Value)
    requires key !in below
    ensures SetDefault(below + top, key, v) == below[key := v] + top
  {
  }

  /** `parse_property`: start from the URL, merge the JSON-LD object in with
      `update`, then add each fallback with `setdefault`. */
  method ParseProperty(page: AdPage, url: string) returns (data: Record)
    ensures data == RecordOf(page, url)
  {
    data := map[UrlKey := JString(url)];
    if page.structured.Some? {
      data := data + page.structured.value;
    }
    // `data` is the layering `below + top` of the fallbacks added so far
    // under the URL and the JSON-LD object.
    ghost var top := map[UrlKey := JString(url)] + StructuredFields(page);
    ghost var below: Record := map[];
    assert data == below + top;
    if page.heading.Some? {
      SetDefaultBelow(below, top, TitleKey, JString(page.heading.value));
      data := SetDefault(data, TitleKey, JString(page.heading.value));
    }
    below := AddFallback(below, TitleKey, page.heading);
    assert data == below + top;
    if page.priceHeading.Some? {
      var clean := DigitsOnly(page.priceHeading.value);
      SetDefaultBelow(below, top, PriceKey, JString(clean));
      data := SetDefault(data, PriceKey, JString(clean));
    }
    below := AddFallback(below, PriceKey, PriceText(page));
    assert data == below + top;
    if page.locationSpan.Some? {
      SetDefaultBelow(below, top, LocationKey, JString(page.locationSpan.value));
      data := SetDefault(data, LocationKey, JString(page.locationSpan.value));
    }
    below := AddFallback(below, LocationKey, page.locationSpan);
    assert data == below + top;
    if page.descriptionDiv.Some? {
      SetDefaultBelow(below, top, DescriptionKey, JString(page.descriptionDiv.value));
      data := SetDefault(data, DescriptionKey, JString(page.descriptionDiv.value));
    }
    below := AddFallback(below, DescriptionKey, page.descriptionDiv);
  }

  /** The URL field is always present; it is the ad's URL unless the JSON-LD
      object carries a `url` of its own. */
  lemma UrlField(page: AdPage, url: string)
    ensures UrlKey in RecordOf(page, url)
    ensures RecordOf(page, url)[UrlKey]
      == if UrlKey in StructuredFields(page) then StructuredFields(page)[UrlKey] else JString(url)
  {
  }

  /** First writer wins: every JSON-LD field is kept as decoded, and a
      fallback only fills a name nobody has written. */
  lemma StructuredDataWins(page: AdPage, url: string)
    ensures forall k :: k in StructuredFields(page) ==> RecordOf(page, url)[k] == StructuredFields(page)[k]
    ensures forall k :: k in FallbackFields(page) && k !in StructuredFields(page) ==>
      RecordOf(page, url)[k] == FallbackFields(page)[k]
  {
  }

  /** A missing element leaves its field absent unless JSON-LD supplies it. */
  lemma MissingElementLeavesFieldAbsent(page: AdPage, url: string)
    ensures page.heading.None? && TitleKey !in StructuredFields(page) ==> TitleKey !in RecordOf(page, url)
    ensures page.priceHeading.None? && PriceKey !in StructuredFields(page) ==> PriceKey !in RecordOf(page, url)
    ensures page.locationSpan.None? && LocationKey !in StructuredFields(page) ==> LocationKey !in RecordOf(page, url)
    ensures page.descriptionDiv.None? && DescriptionKey !in StructuredFields(page)
      ==> DescriptionKey !in RecordOf(page, url)
  {
  }

  /** Without usable JSON-LD the record is exactly the URL plus the
      fallbacks of the elements that were found. */
  lemma WithoutStructuredData(page: AdPage, url: string)
    requires page.structured.None?
    ensures RecordOf(page, url) == FallbackFields(page)[UrlKey := JString(url)]
    ensures RecordOf(page, url).Keys == {UrlKey} + FallbackFields(page).Keys
  {
  }

  /** A price taken from the heading is made of digits only: those of the
      heading text, in order. A JSON-LD price is kept as it was decoded. */
  lemma FallbackPriceIsDigits(page: AdPage, url: string)
    requires page.priceHeading.Some? && PriceKey !in StructuredFields(page)
    ensures PriceKey in RecordOf(page, url)
    ensures RecordOf(page, url)[PriceKey] == JString(DigitsOnly(page.priceHeading.value))
    ensures AllDigits(RecordOf(page, url)[PriceKey].s)
  {
  }
}
