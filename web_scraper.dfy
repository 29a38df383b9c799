/** The Selenium scraper of the research-foundation listing (db_setup_scripts/web_scraper.py): the
    per-row field getters with their fallbacks, one page, the page loop, and the filling in of each
    record's PDF link. The airflow DAG scrapes the same way and reuses this module. */
module WebScraper {
  import opened Py
  import opened PyStr

  const BASE_URL := "https://rpc.cfainstitute.org/en/research-foundation/publications#"
  const URL_PARAMS := "sort=%40officialz32xdate%20descending&f:SeriesContent=[Research%20Foundation]"
  const DEFAULT_IMAGE_URL :=
    "https://png." + "pngtree.com/" + "png-clipart/" + "20220612/" + "original/" + "pngtree-pdf-" + "file-icon-"
    + "png-png-" + "image_" + "7965915.png"
  const RESULTS_PER_PAGE := 10

  /** The element with class `CoveoResultLink`: its `href` attribute and its text. */
  datatype Anchor = Anchor(href: string, text: string)

  /** One result row as the browser shows it. A field is `None` where `find_element` raises. */
  datatype ResultRow = ResultRow(resultLink: Option<Anchor>, imageSrc: Option<string>, bodyText: Option<string>)

  /** A scraped record: the keys `webpage_link`, `title`, `image_link` and `summary_text`, and
      `pdf_link`, which is `None` while that key is absent. */
  datatype Record = Record(
    webpageLink: string,
    title: Option<string>,
    imageLink: string,
    summaryText: string,
    pdfLink: Option<string>)

  /** The browser, as far as the scraper sees it. */
  datatype Browser = Browser(
    /** The result rows at a listing URL; `None` when loading the page raises. */
    rowsAt: string -> Option<seq<ResultRow>>,
    /** The utf-8 / unicode_escape / latin1 round trip of a text; `None` when a codec raises. */
    reencode: string -> Option<string>,
    /** The `href` of the first link ending in ".pdf" on a web page; `None` when the wait or the
        lookup raises. */
    pdfHrefAt: string -> Option<string>)

  /** `get_webpage_link` */
  function WebpageLink(row: ResultRow): string
  {
    match row.resultLink
    case None => ""
    case Some(a) => a.href
  }

  /** `get_pdf_title`: its `except` branch falls off the end, so the title is `None` then. */
  function PdfTitle(row: ResultRow, b: Browser): Option<string>
  {
    match row.resultLink
    case None => None
    case Some(a) => b.reencode(a.text)
  }

  /** `get_image_link`: the `src` up to its first `?`, or the default icon. */
  function ImageLink(row: ResultRow): (link: string)
    ensures '?' !in link
    ensures row.imageSrc.None? ==> link == DEFAULT_IMAGE_URL
    ensures row.imageSrc.Some? ==>
              var src := row.imageSrc.value;
              && |link| <= |src|
              && link == src[..|link|]
              && (link == src || src[|link|] == '?')
  {
    match row.imageSrc
    case None =>
      DefaultImageUrlPlain();
      DEFAULT_IMAGE_URL
    case Some(src) =>
      SplitCharFirst(src, '?');
      Split(src, "?")[0]
  }

  /** The default icon's URL has no query part. */
  lemma DefaultImageUrlPlain()
    ensures '?' !in DEFAULT_IMAGE_URL
  {
  }

  /** `get_pdf_summary` */
  function PdfSummary(row: ResultRow, b: Browser): string
  {
    match row.bodyText
    case None => ""
    case Some(t) => b.reencode(t).GetOr("")
  }

  /** The dictionary built for one row. Every getter catches its own exceptions, so building it never
      fails and the per-row `except` of `scrape_single_page` is never taken. */
  function ScrapeRow(row: ResultRow, b: Browser): Record
  {
    Record(WebpageLink(row), PdfTitle(row, b), ImageLink(row), PdfSummary(row, b), None)
  }

  /** The fallbacks: "" for a missing link or summary, no title, the default icon for a missing
      image; and a fresh record has no `pdf_link` and no `?` in its image link. */
  lemma ScrapeRowFallbacks(row: ResultRow, b: Browser)
    ensures var r := ScrapeRow(row, b);
      && (row.resultLink.None? ==> r.webpageLink == "" && r.title == None)
      && (row.imageSrc.None? ==> r.imageLink == DEFAULT_IMAGE_URL)
      && (row.bodyText.None? ==> r.summaryText == "")
      && (row.resultLink.Some? ==> r.webpageLink == row.resultLink.value.href)
      && '?' !in r.imageLink
      && r.pdfLink == None
  {
  }

  /** The records of a page's rows, one per row, in row order. */
  function PageRecords(rows: seq<ResultRow>, b: Browser): (rs: seq<Record>)
    ensures |rs| == |rows|
    ensures forall i :: 0 <= i < |rows| ==> rs[i] == ScrapeRow(rows[i], b)
  {
    if rows == [] then []
    else PageRecords(rows[..|rows| - 1], b) + [ScrapeRow(rows[|rows| - 1], b)]
  }

  /** What scraping one listing page yields. When `waitForRows` holds, the page is first waited on
      until result rows are present, and a page without any raises a timeout. */
  function PageOutcome(url: string, b: Browser, waitForRows: bool): Outcome<seq<Record>>
  {
    match b.rowsAt(url)
    case None => Raised
    case Some(rows) =>
      if waitForRows && rows == [] then Raised else Returned(PageRecords(rows, b))
  }

  /** `scrape_single_page` */
  method ScrapeSinglePage(url: string, b: Browser, waitForRows: bool) returns (r: Outcome<seq<Record>>)
    ensures r == PageOutcome(url, b, waitForRows)
  {
    var found := b.rowsAt(url);
    if found.None? || (waitForRows && found.value == []) {
      return Raised;
    }
    var rows := found.value;
    var pageData: seq<Record> := [];
    var i := 0;
    while i < |rows|
      invariant 0 <= i <= |rows|
      invariant pageData == PageRecords(rows[..i], b)
    {
      assert rows[..i + 1][..i] == rows[..i];
      pageData := pageData + [ScrapeRow(rows[i], b)];
      i := i + 1;
    }
    assert rows[..i] == rows;
    return Returned(pageData);
  }

  /** A listing URL with the given base and parameters for the results starting at `offset`. */
  function OffsetUrl(base: string, offset: nat, params: string): string
  {
    base + "&first=" + NatToString(offset) + "&" + params
  }

  /** The listing URL for the results starting at `offset`. */
  function PageUrl(offset: nat): string
  {
    OffsetUrl(BASE_URL, offset, URL_PARAMS)
  }

  /** The offset sits between `&first=` and the next `&`, just after the base. */
  lemma OffsetUrlHasOffset(base: string, offset: nat, params: string)
    ensures OccursAt(OffsetUrl(base, offset, params), "&first=" + NatToString(offset) + "&", |base|)
  {
    var u := OffsetUrl(base, offset, params);
    var mid := "&first=" + NatToString(offset) + "&";
    assert u == base + mid + params;
    assert u[|base|..|base| + |mid|] == mid;
  }

  /** Each page URL carries its offset as `&first={offset}&`, just after the base URL. */
  lemma PageUrlHasOffset(offset: nat)
    ensures OccursAt(PageUrl(offset), "&first=" + NatToString(offset) + "&", |BASE_URL|)
  {
    OffsetUrlHasOffset(BASE_URL, offset, URL_PARAMS);
  }

  /** With the base and the parameters fixed, the URL determines the offset. */
  lemma OffsetUrlInjective(base: string, params: string, o1: nat, o2: nat)
    requires OffsetUrl(base, o1, params) == OffsetUrl(base, o2, params)
    ensures o1 == o2
  {
    var prefix := base + "&first=";
    var suffix := "&" + params;
    var d1, d2 := NatToString(o1), NatToString(o2);
    var u1, u2 := OffsetUrl(base, o1, params), OffsetUrl(base, o2, params);
    assert u1 == prefix + d1 + suffix && u2 == prefix + d2 + suffix;
    assert |d1| == |d2|;
    assert d1 == u1[|prefix|..|prefix| + |d1|];
    assert d2 == u2[|prefix|..|prefix| + |d2|];
    NatToStringInjective(o1, o2);
  }

  /** Different offsets give different URLs, so no page is loaded twice. */
  lemma PageUrlInjective(o1: nat, o2: nat)
    requires PageUrl(o1) == PageUrl(o2)
    ensures o1 == o2
  {
    OffsetUrlInjective(BASE_URL, URL_PARAMS, o1, o2);
  }

  /** The offsets `range(0, num_pages * 10, 10)` visited by `scrape_pages`. */
  function PageOffsets(numPages: int): seq<nat>
  {
    Range(0, numPages * RESULTS_PER_PAGE, RESULTS_PER_PAGE)
  }

  /** `num_pages` pages, at offsets 0, 10, ..., 10 * (num_pages - 1), in that order; none at all
      when `num_pages` is not positive. */
  lemma PageOffsetsSpec(numPages: int)
    ensures |PageOffsets(numPages)| == if numPages > 0 then numPages else 0
    ensures forall i :: 0 <= i < |PageOffsets(numPages)| ==> PageOffsets(numPages)[i] == 10 * i
  {
    if numPages > 0 {
      RangeSteps(0, numPages, 10);
      assert 0 + numPages * 10 == numPages * RESULTS_PER_PAGE;
      assert forall i :: 0 <= i < numPages ==> 0 + i * 10 == 10 * i;
    }
  }

  /** The records of the pages at `offsets`, concatenated in page order, or `Raised` when loading a
      page raises (the loop stops there). */
  function PagesData(offsets: seq<nat>, b: Browser, waitForRows: bool): Outcome<seq<Record>>
  {
    if offsets == [] then Returned([])
    else
      match PagesData(offsets[..|offsets| - 1], b, waitForRows)
      case Raised => Raised
      case Returned(d) =>
        match PageOutcome(PageUrl(offsets[|offsets| - 1]), b, waitForRows)
        case Raised => Raised
        case Returned(p) => Returned(d + p)
  }

  /** The pages fail exactly when one of them does. */
  lemma {:induction false} PagesDataRaised(offsets: seq<nat>, b: Browser, waitForRows: bool)
    ensures PagesData(offsets, b, waitForRows).Raised? <==>
            exists k :: 0 <= k < |offsets| && PageOutcome(PageUrl(offsets[k]), b, waitForRows).Raised?
    decreases |offsets|
  {
    if offsets != [] {
      var init := offsets[..|offsets| - 1];
      PagesDataRaised(init, b, waitForRows);
      if PagesData(offsets, b, waitForRows).Raised? {
        if PagesData(init, b, waitForRows).Raised? {
          var k :| 0 <= k < |init| && PageOutcome(PageUrl(init[k]), b, waitForRows).Raised?;
          assert offsets[k] == init[k];
        } else {
          assert PageOutcome(PageUrl(offsets[|offsets| - 1]), b, waitForRows).Raised?;
        }
      } else {
        forall k | 0 <= k < |offsets|
          ensures PageOutcome(PageUrl(offsets[k]), b, waitForRows).Returned?
        {
          if k < |init| {
            assert offsets[k] == init[k];
          }
        }
      }
    }
  }

  /** Scraping the pages of `front` and then those of `back` gives the records of `front`, then
      those of `back`. */
  lemma {:induction false} PagesDataAppend(front: seq<nat>, back: seq<nat>, b: Browser, waitForRows: bool)
    requires PagesData(front, b, waitForRows).Returned? && PagesData(back, b, waitForRows).Returned?
    ensures PagesData(front + back, b, waitForRows) ==
            Returned(PagesData(front, b, waitForRows).value + PagesData(back, b, waitForRows).value)
    decreases |back|
  {
    if back == [] {
      assert front + back == front;
      assert PagesData(front, b, waitForRows).value + [] == PagesData(front, b, waitForRows).value;
    } else {
      var init := back[..|back| - 1];
      var last := back[|back| - 1];
      assert (front + back)[..|front + back| - 1] == front + init;
      assert (front + back)[|front + back| - 1] == last;
      PagesDataAppend(front, init, b, waitForRows);
      var p := PageOutcome(PageUrl(last), b, waitForRows).value;
      SeqAssoc(PagesData(front, b, waitForRows).value, PagesData(init, b, waitForRows).value, p);
    }
  }

  /** No record straight from the pages has a `pdf_link` key or a `?` in its image link. */
  lemma {:induction false} PagesDataFresh(offsets: seq<nat>, b: Browser, waitForRows: bool)
    requires PagesData(offsets, b, waitForRows).Returned?
    ensures forall r :: r in PagesData(offsets, b, waitForRows).value ==> r.pdfLink == None && '?' !in r.imageLink
    decreases |offsets|
  {
    if offsets != [] {
      var init := offsets[..|offsets| - 1];
      PagesDataFresh(init, b, waitForRows);
      var rows := b.rowsAt(PageUrl(offsets[|offsets| - 1])).value;
      forall r | r in PageRecords(rows, b)
        ensures r.pdfLink == None && '?' !in r.imageLink
      {
        var i :| 0 <= i < |rows| && PageRecords(rows, b)[i] == r;
        ScrapeRowFallbacks(rows[i], b);
      }
    }
  }

  /** `scrape_pages(num_pages)` */
  method ScrapePages(numPages: int, b: Browser, waitForRows: bool) returns (r: Outcome<seq<Record>>)
    ensures r == PagesData(PageOffsets(numPages), b, waitForRows)
  {
    var offsets := PageOffsets(numPages);
    var allData: seq<Record> := [];
    var i := 0;
    while i < |offsets|
      invariant 0 <= i <= |offsets|
      invariant PagesData(offsets[..i], b, waitForRows) == Returned(allData)
    {
      PagesDataNext(offsets, i, b, waitForRows);
      var pageData := ScrapeSinglePage(PageUrl(offsets[i]), b, waitForRows);
      if pageData.Raised? {
        PagesDataStaysRaised(offsets, i + 1, b, waitForRows);
        return Raised;
      }
      allData := allData + pageData.value;
      i := i + 1;
    }
    assert offsets[..i] == offsets;
    return Returned(allData);
  }

  /** One more page after pages that went through. */
  lemma PagesDataNext(offsets: seq<nat>, i: nat, b: Browser, waitForRows: bool)
    requires i < |offsets| && PagesData(offsets[..i], b, waitForRows).Returned?
    ensures PagesData(offsets[..i + 1], b, waitForRows) ==
              match PageOutcome(PageUrl(offsets[i]), b, waitForRows)
              case Raised => Raised
              case Returned(p) => Returned(PagesData(offsets[..i], b, waitForRows).value + p)
  {
    assert offsets[..i + 1][..i] == offsets[..i];
  }

  /** Once a prefix of the pages raises, so do all the pages. */
  lemma {:induction false} PagesDataStaysRaised(offsets: seq<nat>, n: nat, b: Browser, waitForRows: bool)
    requires n <= |offsets| && PagesData(offsets[..n], b, waitForRows) == Raised
    ensures PagesData(offsets, b, waitForRows) == Raised
    decreases |offsets| - n
  {
    if n == |offsets| {
      assert offsets[..n] == offsets;
    } else {
      assert offsets[..n + 1][..n] == offsets[..n];
      PagesDataStaysRaised(offsets, n + 1, b, waitForRows);
    }
  }

  /** The index of the first record whose PDF lookup fails, or the number of records. */
  function FirstFailure(records: seq<Record>, b: Browser): (f: nat)
    ensures f <= |records|
    ensures forall j :: 0 <= j < f ==> b.pdfHrefAt(records[j].webpageLink).Some?
    ensures f < |records| ==> b.pdfHrefAt(records[f].webpageLink).None?
  {
    if records == [] then 0
    else if b.pdfHrefAt(records[0].webpageLink).None? then 0
    else 1 + FirstFailure(records[1..], b)
  }

  /** The record with its `pdf_link` key set from the lookup. */
  function WithPdfLink(r: Record, b: Browser): Record
    requires b.pdfHrefAt(r.webpageLink).Some?
  {
    r.(pdfLink := Some(b.pdfHrefAt(r.webpageLink).value))
  }

  /** The records after `get_pdf_documents`: the ones before the first failing lookup carry their PDF
      link, the rest are as they were. */
  function FillPdfLinks(records: seq<Record>, b: Browser): (filled: seq<Record>)
  {
    var f := FirstFailure(records, b);
    seq(|records|, i requires 0 <= i < |records| => if i < f then WithPdfLink(records[i], b) else records[i])
  }

  /** Filling in changes only `pdf_link`, and sets it exactly for the records before the first
      failing lookup. */
  lemma FillPdfLinksSpec(records: seq<Record>, b: Browser)
    ensures |FillPdfLinks(records, b)| == |records|
    ensures forall i :: 0 <= i < |records| ==>
              var r := FillPdfLinks(records, b)[i];
              && r.(pdfLink := records[i].pdfLink) == records[i]
              && (i < FirstFailure(records, b) ==> r.pdfLink == b.pdfHrefAt(records[i].webpageLink))
              && (i >= FirstFailure(records, b) ==> r == records[i])
  {
  }

  /** When every lookup succeeds, every record gets its link. */
  lemma FillPdfLinksAll(records: seq<Record>, b: Browser)
    requires forall i :: 0 <= i < |records| ==> b.pdfHrefAt(records[i].webpageLink).Some?
    ensures forall i :: 0 <= i < |records| ==> FillPdfLinks(records, b)[i].pdfLink.Some?
  {
  }

  /** `get_pdf_documents(data)`: sets `pdf_link` on the records in place, in order, stops at the first
      failing lookup, and returns the same list. */
  method GetPdfDocuments(data: array<Record>, b: Browser) returns (r: array<Record>)
    modifies data
    ensures r == data
    ensures data[..] == FillPdfLinks(old(data[..]), b)
  {
    ghost var records := data[..];
    var f := FirstFailure(records, b);
    var i := 0;
    while i < data.Length
      invariant 0 <= i <= data.Length
      invariant i <= f
      invariant forall j :: 0 <= j < i ==> data[j] == WithPdfLink(records[j], b)
      invariant forall j :: i <= j < data.Length ==> data[j] == records[j]
    {
      var href := b.pdfHrefAt(data[i].webpageLink);
      if href.None? {
        break;
      }
      data[i] := data[i].(pdfLink := Some(href.value));
      i := i + 1;
    }
    assert i == f;
    return data;
  }

  /** The run of the script: ten (or `numPages`) pages, then the PDF links; the JSON dump is left
      out. */
  method ScrapeAndFill(numPages: int, b: Browser, waitForRows: bool) returns (r: Outcome<seq<Record>>)
    ensures r == match PagesData(PageOffsets(numPages), b, waitForRows)
                 case Raised => Raised
                 case Returned(d) => Returned(FillPdfLinks(d, b))
  {
    var pages := ScrapePages(numPages, b, waitForRows);
    if pages.Raised? {
      return Raised;
    }
    var d := pages.value;
    var data := new Record[|d|](i requires 0 <= i < |d| => d[i]);
    assert data[..] == d;
    data := GetPdfDocuments(data, b);
    return Returned(data[..]);
  }
}
