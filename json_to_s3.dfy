/** The one-off loader (db_setup_scripts/json_to_s3.py): reads the scraped JSON file, copies every
    PDF and image into S3 and inserts one row per record into Snowflake. Unlike the DAG it swallows
    every exception: a failed upload gives a NULL link, and a failure anywhere else ends the loop
    without a commit. */
module JsonToS3 {
  import opened Py
  import opened WebScraper
  import opened Storage

  /** This script's `upload_to_s3`: the link always names the configured bucket, and an exception
      gives `None`. */
  function UploadLink(cloud: Cloud, url: string, bucket: string, key: string): Option<string>
  {
    if TransferRaises(cloud, url, bucket, key) then None else Some(S3Link(BUCKET, key))
  }

  /** The link is returned whether or not anything was stored, and only an exception loses it. */
  lemma UploadLinkSpec(cloud: Cloud, url: string, bucket: string, key: string)
    ensures UploadLink(cloud, url, bucket, key).None? <==>
              cloud.http(url).None? ||
              (cloud.http(url).value.status == 200 && !cloud.putOk(bucket, ObjectKey(key)))
    ensures UploadLink(cloud, url, bucket, key).Some? ==>
              UploadLink(cloud, url, bucket, key).value == S3Link(BUCKET, key) &&
              (TransferPuts(cloud, url, bucket, key) == [] <==> cloud.http(url).value.status != 200)
  {
  }

  /** `upload_to_s3(file_url, s3_bucket, s3_key)` */
  method UploadToS3(store: ObjectStore, cloud: Cloud, url: string, bucket: string, key: string) returns (r: Option<string>)
    modifies store
    ensures r == UploadLink(cloud, url, bucket, key)
    ensures store.objects == ApplyPuts(old(store.objects), TransferPuts(cloud, url, bucket, key))
  {
    var raised := Transfer(store, cloud, url, bucket, key);
    if raised {
      return None;
    }
    return Some(S3Link(BUCKET, key));
  }

  /** The row inserted for a record: the last segment of its *webpage* link as key, the title, the
      two links (NULL where the upload raised) and the summary. */
  function InsertFor(rec: Record, cloud: Cloud): InsertRow
    requires rec.pdfLink.Some?
  {
    var pdfName := LastSegment(rec.pdfLink.value);
    var imageName := ImageName(pdfName, rec.imageLink);
    InsertRow(
      LastSegment(rec.webpageLink),
      rec.title,
      UploadLink(cloud, rec.imageLink, BUCKET, imageName),
      UploadLink(cloud, rec.pdfLink.value, BUCKET, pdfName),
      rec.summaryText)
  }

  /** One iteration of the loop, up to the insert: a record without `pdf_link` raises at once;
      otherwise both uploads are attempted and neither raises. */
  function RowStep(rec: Record, cloud: Cloud): Step
  {
    match rec.pdfLink
    case None => Step([], Raised)
    case Some(pdfLink) =>
      var pdfName := LastSegment(pdfLink);
      var imageName := ImageName(pdfName, rec.imageLink);
      Step(TransferPuts(cloud, pdfLink, BUCKET, pdfName) + TransferPuts(cloud, rec.imageLink, BUCKET, imageName),
           Returned(InsertFor(rec, cloud)))
  }

  /** The body of the loop, up to the insert. */
  method UploadRow(store: ObjectStore, cloud: Cloud, rec: Record) returns (row: Outcome<InsertRow>)
    modifies store
    ensures row == RowStep(rec, cloud).row
    ensures store.objects == ApplyPuts(old(store.objects), RowStep(rec, cloud).puts)
  {
    if rec.pdfLink.None? {
      return Raised;
    }
    var pdfLink := rec.pdfLink.value;
    var pdfName := LastSegment(pdfLink);
    var imageName := ImageName(pdfName, rec.imageLink);
    ghost var before := store.objects;
    var pdfS3Link := UploadToS3(store, cloud, pdfLink, BUCKET, pdfName);
    var imageS3Link := UploadToS3(store, cloud, rec.imageLink, BUCKET, imageName);
    ApplyPutsAppend(before, TransferPuts(cloud, pdfLink, BUCKET, pdfName), TransferPuts(cloud, rec.imageLink, BUCKET, imageName));
    var pdfKey := LastSegment(rec.webpageLink);
    return Returned(InsertRow(pdfKey, rec.title, imageS3Link, pdfS3Link, rec.summaryText));
  }

  /** The effect of this script's loop on `records`. */
  function JsonRun(records: seq<Record>, cloud: Cloud): Run
  {
    RunOf(records, cloud, RowStep)
  }

  /** When no row raises, row i is the insert for record i, keyed by the last segment of its
      webpage link. */
  lemma JsonRows(records: seq<Record>, cloud: Cloud)
    requires !JsonRun(records, cloud).failed
    ensures |JsonRun(records, cloud).rows| == |records|
    ensures forall i :: 0 <= i < |records| ==>
              && records[i].pdfLink.Some?
              && JsonRun(records, cloud).rows[i] == InsertFor(records[i], cloud)
              && JsonRun(records, cloud).rows[i].pdfKey == LastSegment(records[i].webpageLink)
  {
    RunOfRows(records, cloud, RowStep);
    forall i | 0 <= i < |records|
      ensures records[i].pdfLink.Some? && JsonRun(records, cloud).rows[i] == InsertFor(records[i], cloud)
    {
      assert RowStep(records[i], cloud).row.Returned?;
    }
  }

  /** Only a missing PDF link or a failed insert stops the loop; failed uploads do not. */
  lemma JsonRunFailed(records: seq<Record>, cloud: Cloud)
    ensures JsonRun(records, cloud).failed <==>
              exists i :: 0 <= i < |records| &&
                (records[i].pdfLink.None? || !cloud.executeOk(InsertFor(records[i], cloud)))
  {
    RunOfFailed(records, cloud, RowStep);
    if JsonRun(records, cloud).failed {
      var i :| 0 <= i < |records| && !RowGoesThrough(RowStep(records[i], cloud), cloud);
      assert records[i].pdfLink.None? || !cloud.executeOk(InsertFor(records[i], cloud));
    } else {
      forall i | 0 <= i < |records|
        ensures records[i].pdfLink.Some? && cloud.executeOk(InsertFor(records[i], cloud))
      {
        assert RowGoesThrough(RowStep(records[i], cloud), cloud);
      }
    }
  }

  /** The loop of `upload_files`: returns whether an exception left it. */
  method InsertRows(records: seq<Record>, store: ObjectStore, db: Warehouse, cloud: Cloud) returns (failed: bool)
    requires db.Valid()
    modifies store, db
    ensures failed == JsonRun(records, cloud).failed
    ensures store.objects == ApplyPuts(old(store.objects), JsonRun(records, cloud).puts)
    ensures db.Valid()
    ensures (db.committed, db.pending) == Inserting(old(db.committed), old(db.pending), JsonRun(records, cloud).rows, db.autocommit)
  {
    ghost var committed, pending := db.committed, db.pending;
    assert records[..0] == [];
    assert committed + [] == committed && pending + [] == pending;
    failed := false;
    var i := 0;
    while i < |records| && !failed
      invariant 0 <= i <= |records|
      invariant failed == JsonRun(records[..i], cloud).failed
      invariant store.objects == ApplyPuts(old(store.objects), JsonRun(records[..i], cloud).puts)
      invariant db.Valid()
      invariant (db.committed, db.pending) == Inserting(committed, pending, JsonRun(records[..i], cloud).rows, db.autocommit)
    {
      ghost var prev := JsonRun(records[..i], cloud);
      RunOfNext(records, i, cloud, RowStep);
      var row := UploadRow(store, cloud, records[i]);
      ApplyPutsAppend(old(store.objects), prev.puts, RowStep(records[i], cloud).puts);
      if row.Raised? {
        failed := true;
      } else {
        failed := db.Execute(row.value, cloud.executeOk(row.value));
        if !failed {
          InsertingAppend(committed, pending, prev.rows, [row.value], db.autocommit);
        }
      }
      i := i + 1;
    }
    if failed {
      RunOfStaysFailed(records, i, cloud, RowStep);
    } else {
      assert records[..i] == records;
    }
  }

  /** When the row loop fails, the rows it inserted are those of the records before the first one
      whose row did not go through; under autocommit these are the rows left committed. */
  lemma JsonRowsBeforeFailure(records: seq<Record>, cloud: Cloud) returns (i: nat)
    requires JsonRun(records, cloud).failed
    ensures i < |records| && |JsonRun(records, cloud).rows| == i
    ensures !RowGoesThrough(RowStep(records[i], cloud), cloud)
    ensures forall j :: 0 <= j < i ==>
              records[j].pdfLink.Some? && JsonRun(records, cloud).rows[j] == InsertFor(records[j], cloud)
  {
    i := RunOfFirstFailure(records, cloud, RowStep);
    var prefix := records[..i];
    JsonRows(prefix, cloud);
    forall j | 0 <= j < i
      ensures records[j].pdfLink.Some? && JsonRun(records, cloud).rows[j] == InsertFor(records[j], cloud)
    {
      assert prefix[j] == records[j];
    }
  }

  /** `upload_files(pdf_data)`, where `pdf_data` is what `load_json` returned: `None` when reading
      the file raised. It never raises: on `None` the loop fails at once, and any exception skips the
      commit. Uploads that happened stay in S3. Under autocommit, the mode the script connects in,
      every row inserted before a failure is already committed; with autocommit off they stay
      uncommitted unless the loop and the commit succeed. Returns whether the success message is
      printed. */
  method UploadFiles(pdfData: Option<seq<Record>>, store: ObjectStore, db: Warehouse, cloud: Cloud) returns (uploaded: bool)
    requires db.Valid()
    modifies store, db
    ensures db.Valid()
    ensures pdfData.None? ==>
              !uploaded && store.objects == old(store.objects) &&
              db.committed == old(db.committed) && db.pending == old(db.pending)
    ensures pdfData.Some? ==>
              var run := JsonRun(pdfData.value, cloud);
              && store.objects == ApplyPuts(old(store.objects), run.puts)
              && (uploaded <==> !run.failed && cloud.commitOk)
              && (db.autocommit ==> db.committed == old(db.committed) + run.rows && db.pending == [])
              && (!db.autocommit && uploaded ==>
                    db.committed == old(db.committed) + old(db.pending) + run.rows && db.pending == [])
              && (!db.autocommit && !uploaded ==>
                    db.committed == old(db.committed) && db.pending == old(db.pending) + run.rows)
  {
    if pdfData.None? {
      return false;
    }
    var failed := InsertRows(pdfData.value, store, db, cloud);
    if failed {
      return false;
    }
    ghost var inserted := db.committed;
    var raised := db.Commit(cloud.commitOk);
    assert inserted + [] == inserted;
    if raised {
      return false;
    }
    SeqAssoc(old(db.committed), old(db.pending), JsonRun(pdfData.value, cloud).rows);
    return true;
  }
}
