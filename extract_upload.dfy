/** The airflow DAG (airflow/dags/dag_extract_upload.py): the scraping task, and the upload task that
    copies every PDF and image into S3 and inserts one row per record into Snowflake. */
module ExtractUpload {
  import opened Py
  import opened WebScraper
  import opened Storage

  /** The scraping task always reads ten listing pages. */
  const PAGES := 10

  /** The page loop visits offsets 0, 10, ..., 90. */
  lemma DagOffsets()
    ensures PageOffsets(PAGES) == [0, 10, 20, 30, 40, 50, 60, 70, 80, 90]
  {
    PageOffsetsSpec(PAGES);
  }

  /** `scrape_pdfs`: the ten pages, without waiting for rows (a page without rows adds nothing), then
      the PDF links. Writing the JSON file and the XCom push are left out. */
  method ScrapePdfs(b: Browser) returns (r: Outcome<seq<Record>>)
    ensures r == match PagesData(PageOffsets(PAGES), b, false)
                 case Raised => Raised
                 case Returned(d) => Returned(FillPdfLinks(d, b))
  {
    r := ScrapeAndFill(PAGES, b, false);
  }

  /** The DAG's `upload_to_s3`: the link is returned whatever the status, and any exception is
      re-raised. */
  function UploadResult(cloud: Cloud, url: string, bucket: string, key: string): Outcome<string>
  {
    if TransferRaises(cloud, url, bucket, key) then Raised else Returned(S3Link(bucket, key))
  }

  /** A status other than 200 stores nothing, yet the link is returned as if the file were there. */
  lemma LinkWithoutUpload(cloud: Cloud, url: string, bucket: string, key: string)
    requires cloud.http(url).Some? && cloud.http(url).value.status != 200
    ensures UploadResult(cloud, url, bucket, key) == Returned(S3Link(bucket, key))
    ensures TransferPuts(cloud, url, bucket, key) == []
  {
  }

  /** `upload_to_s3(file_url, s3_bucket, s3_key)` */
  method UploadToS3(store: ObjectStore, cloud: Cloud, url: string, bucket: string, key: string) returns (r: Outcome<string>)
    modifies store
    ensures r == UploadResult(cloud, url, bucket, key)
    ensures store.objects == ApplyPuts(old(store.objects), TransferPuts(cloud, url, bucket, key))
  {
    var raised := Transfer(store, cloud, url, bucket, key);
    if raised {
      return Raised;
    }
    return Returned(S3Link(bucket, key));
  }

  /** The row inserted for a record whose uploads went through:
      (pdf_name, title, image S3 link, PDF S3 link, summary). */
  function InsertFor(rec: Record): InsertRow
    requires rec.pdfLink.Some?
  {
    var pdfName := LastSegment(rec.pdfLink.value);
    var imageName := ImageName(pdfName, rec.imageLink);
    InsertRow(pdfName, rec.title, Some(S3Link(BUCKET, imageName)), Some(S3Link(BUCKET, pdfName)), rec.summaryText)
  }

  /** One iteration of the row loop, up to the insert. A record without `pdf_link` raises at once
      (the column is missing or NaN after the JSON round trip); otherwise the PDF is uploaded and then
      the image, and either upload may raise. */
  function RowStep(rec: Record, cloud: Cloud): Step
  {
    match rec.pdfLink
    case None => Step([], Raised)
    case Some(pdfLink) =>
      var pdfName := LastSegment(pdfLink);
      var imageName := ImageName(pdfName, rec.imageLink);
      var pdfPuts := TransferPuts(cloud, pdfLink, BUCKET, pdfName);
      if TransferRaises(cloud, pdfLink, BUCKET, pdfName) then Step(pdfPuts, Raised)
      else
        var puts := pdfPuts + TransferPuts(cloud, rec.imageLink, BUCKET, imageName);
        if TransferRaises(cloud, rec.imageLink, BUCKET, imageName) then Step(puts, Raised)
        else Step(puts, Returned(InsertFor(rec)))
  }

  /** The body of the row loop, up to the insert. */
  method UploadRow(store: ObjectStore, cloud: Cloud, rec: Record) returns (row: Outcome<InsertRow>)
    modifies store
    ensures row == RowStep(rec, cloud).row
    ensures store.objects == ApplyPuts(old(store.objects), RowStep(rec, cloud).puts)
  {
    if rec.pdfLink.None? {
      return Raised;
    }
    var pdfLink := rec.pdfLink.value;
    var pdfName := LastSegment(pdfLink);
    var imageName := ImageName(pdfName, rec.imageLink);
    ghost var before := store.objects;
    var pdfS3Link := UploadToS3(store, cloud, pdfLink, BUCKET, pdfName);
    if pdfS3Link.Raised? {
      return Raised;
    }
    var imageS3Link := UploadToS3(store, cloud, rec.imageLink, BUCKET, imageName);
    ApplyPutsAppend(before, TransferPuts(cloud, pdfLink, BUCKET, pdfName), TransferPuts(cloud, rec.imageLink, BUCKET, imageName));
    if imageS3Link.Raised? {
      return Raised;
    }
    return Returned(InsertRow(pdfName, rec.title, Some(imageS3Link.value), Some(pdfS3Link.value), rec.summaryText));
  }

  /** The effect of the DAG's row loop on `records`. */
  function DagRun(records: seq<Record>, cloud: Cloud): Run
  {
    RunOf(records, cloud, RowStep)
  }

  /** When no row raises, row i is the insert for record i: its PDF name as key, the title, the two
      S3 links and the summary. */
  lemma DagRows(records: seq<Record>, cloud: Cloud)
    requires !DagRun(records, cloud).failed
    ensures |DagRun(records, cloud).rows| == |records|
    ensures forall i :: 0 <= i < |records| ==>
              records[i].pdfLink.Some? && DagRun(records, cloud).rows[i] == InsertFor(records[i])
  {
    RunOfRows(records, cloud, RowStep);
    forall i | 0 <= i < |records|
      ensures records[i].pdfLink.Some? && DagRun(records, cloud).rows[i] == InsertFor(records[i])
    {
      assert RowStep(records[i], cloud).row.Returned?;
    }
  }

  /** A record left without a PDF link (the scrape's lookup stopped before it) makes the upload task fail. */
  lemma MissingPdfLinkFails(records: seq<Record>, cloud: Cloud, i: nat)
    requires i < |records| && records[i].pdfLink.None?
    ensures DagRun(records, cloud).failed
  {
    RunOfFailed(records, cloud, RowStep);
    assert !RowGoesThrough(RowStep(records[i], cloud), cloud);
  }

  /** The row loop of `upload_to_snowflake_and_s3`: returns whether an exception left it. */
  method InsertRows(records: seq<Record>, store: ObjectStore, db: Warehouse, cloud: Cloud) returns (failed: bool)
    requires db.Valid()
    modifies store, db
    ensures failed == DagRun(records, cloud).failed
    ensures store.objects == ApplyPuts(old(store.objects), DagRun(records, cloud).puts)
    ensures db.Valid()
    ensures (db.committed, db.pending) == Inserting(old(db.committed), old(db.pending), DagRun(records, cloud).rows, db.autocommit)
  {
    ghost var committed, pending := db.committed, db.pending;
    assert records[..0] == [];
    assert committed + [] == committed && pending + [] == pending;
    failed := false;
    var i := 0;
    while i < |records| && !failed
      invariant 0 <= i <= |records|
      invariant failed == DagRun(records[..i], cloud).failed
      invariant store.objects == ApplyPuts(old(store.objects), DagRun(records[..i], cloud).puts)
      invariant db.Valid()
      invariant (db.committed, db.pending) == Inserting(committed, pending, DagRun(records[..i], cloud).rows, db.autocommit)
    {
      ghost var prev := DagRun(records[..i], cloud);
      RunOfNext(records, i, cloud, RowStep);
      var row := UploadRow(store, cloud, records[i]);
      ApplyPutsAppend(old(store.objects), prev.puts, RowStep(records[i], cloud).puts);
      if row.Raised? {
        failed := true;
      } else {
        failed := db.Execute(row.value, cloud.executeOk(row.value));
        if !failed {
          InsertingAppend(committed, pending, prev.rows, [row.value], db.autocommit);
        }
      }
      i := i + 1;
    }
    if failed {
      RunOfStaysFailed(records, i, cloud, RowStep);
    } else {
      assert records[..i] == records;
    }
  }

  /** When the row loop fails, the rows it inserted are those of the records before the first one
      whose row did not go through; under autocommit these are the rows the failed task leaves committed. */
  lemma DagRowsBeforeFailure(records: seq<Record>, cloud: Cloud) returns (i: nat)
    requires DagRun(records, cloud).failed
    ensures i < |records| && |DagRun(records, cloud).rows| == i
    ensures !RowGoesThrough(RowStep(records[i], cloud), cloud)
    ensures forall j :: 0 <= j < i ==>
              records[j].pdfLink.Some? && DagRun(records, cloud).rows[j] == InsertFor(records[j])
  {
    i := RunOfFirstFailure(records, cloud, RowStep);
    var prefix := records[..i];
    DagRows(prefix, cloud);
    forall j | 0 <= j < i
      ensures records[j].pdfLink.Some? && DagRun(records, cloud).rows[j] == InsertFor(records[j])
    {
      assert prefix[j] == records[j];
    }
  }

  /** `upload_to_snowflake_and_s3`, given the records read back from the JSON file (`None` when
      reading it raises) and whether the connection could be opened. Every upload that happened stays
      in S3. Under autocommit, the mode the upload task connects in, every row inserted before a failure is
      already committed; with autocommit off the inserted rows stay uncommitted unless the whole loop
      and the one commit after it succeed. */
  method UploadToSnowflakeAndS3(json: Option<seq<Record>>, connectOk: bool, store: ObjectStore, db: Warehouse, cloud: Cloud)
    returns (r: Outcome<()>)
    requires db.Valid()
    modifies store, db
    ensures db.Valid()
    ensures json.None? || !connectOk ==>
              r == Raised && store.objects == old(store.objects) &&
              db.committed == old(db.committed) && db.pending == old(db.pending)
    ensures json.Some? && connectOk ==>
              var run := DagRun(json.value, cloud);
              && store.objects == ApplyPuts(old(store.objects), run.puts)
              && (r.Returned? <==> !run.failed && cloud.commitOk)
              && (db.autocommit ==> db.committed == old(db.committed) + run.rows && db.pending == [])
              && (!db.autocommit && r.Returned? ==>
                    db.committed == old(db.committed) + old(db.pending) + run.rows && db.pending == [])
              && (!db.autocommit && r.Raised? ==>
                    db.committed == old(db.committed) && db.pending == old(db.pending) + run.rows)
  {
    if !connectOk || json.None? {
      return Raised;
    }
    var failed := InsertRows(json.value, store, db, cloud);
    if failed {
      return Raised;
    }
    ghost var inserted := db.committed;
    var raised := db.Commit(cloud.commitOk);
    assert inserted + [] == inserted;
    if raised {
      return Raised;
    }
    SeqAssoc(old(db.committed), old(db.pending), DagRun(json.value, cloud).rows);
    return Returned(());
  }
}
