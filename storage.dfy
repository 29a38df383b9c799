/** What the two ingestion scripts (airflow/dags/dag_extract_upload.py and
    db_setup_scripts/json_to_s3.py) share: the S3 bucket seen as a map from (bucket, key) to bytes,
    the Snowflake table seen as committed and pending rows, the file names derived from the scraped
    links, and the links written to the table. */
module Storage {
  import opened Py
  import opened PyStr
  import opened WebScraper

  const BUCKET := "bdia-assignment-3"
  const FOLDER := "Research-Foundation"
  const AWS_LINK := "https://bdia-assignment-3.s3.us-east-1.amazonaws.com"

  /** The answer to `requests.get(url, stream=True)`: the status code and the streamed body. */
  datatype Reply = Reply(status: int, body: seq<bv8>)

  /** One `upload_fileobj` that took place. */
  datatype Put = Put(bucket: string, key: string, body: seq<bv8>)

  /** A row of `research_foundation`, in the insert's column order
      (pdf_key, title, image_link, pdf_link, pdf_summary); `None` is SQL NULL. */
  datatype InsertRow = InsertRow(
    pdfKey: string,
    title: Option<string>,
    imageLink: Option<string>,
    pdfLink: Option<string>,
    pdfSummary: string)

  /** The remote services the upload loops call, as oracles. */
  datatype Cloud = Cloud(
    /** `requests.get(url)`; `None` when it raises. */
    http: string -> Option<Reply>,
    /** Whether `upload_fileobj` to (bucket, key) returns rather than raises. */
    putOk: (string, string) -> bool,
    /** Whether `cursor.execute` of the row returns rather than raises. */
    executeOk: InsertRow -> bool,
    /** Whether `conn.commit()` returns rather than raises. */
    commitOk: bool)

  /** The objects after a sequence of uploads, a later one replacing an earlier one at the same key. */
  function ApplyPuts(objects: map<(string, string), seq<bv8>>, puts: seq<Put>): map<(string, string), seq<bv8>>
  {
    if puts == [] then objects
    else
      var p := puts[|puts| - 1];
      ApplyPuts(objects, puts[..|puts| - 1])[(p.bucket, p.key) := p.body]
  }

  /** Uploading `a` and then `b` is uploading `a + b`. */
  lemma {:induction false} ApplyPutsAppend(objects: map<(string, string), seq<bv8>>, a: seq<Put>, b: seq<Put>)
    ensures ApplyPuts(ApplyPuts(objects, a), b) == ApplyPuts(objects, a + b)
    decreases |b|
  {
    if b == [] {
      assert a + b == a;
    } else {
      assert (a + b)[..|a + b| - 1] == a + b[..|b| - 1];
      assert (a + b)[|a + b| - 1] == b[|b| - 1];
      ApplyPutsAppend(objects, a, b[..|b| - 1]);
    }
  }

  /** The last upload to a key decides its content, and keys nobody uploaded to keep theirs. */
  lemma {:induction false} ApplyPutsLookup(objects: map<(string, string), seq<bv8>>, puts: seq<Put>, bucket: string, key: string)
    ensures (forall i :: 0 <= i < |puts| ==> (puts[i].bucket, puts[i].key) != (bucket, key)) ==>
              ((bucket, key) in ApplyPuts(objects, puts) <==> (bucket, key) in objects) &&
              ((bucket, key) in objects ==> ApplyPuts(objects, puts)[(bucket, key)] == objects[(bucket, key)])
    ensures |puts| > 0 && puts[|puts| - 1].bucket == bucket && puts[|puts| - 1].key == key ==>
              ApplyPuts(objects, puts)[(bucket, key)] == puts[|puts| - 1].body
    decreases |puts|
  {
    if puts != [] {
      ApplyPutsLookup(objects, puts[..|puts| - 1], bucket, key);
    }
  }

  /** `link.split("/")[-1]` */
  function LastSegment(link: string): (name: string)
    ensures |name| <= |link| && name == link[|link| - |name|..]
    ensures '/' !in name
    ensures '/' !in link ==> name == link
    ensures '/' in link ==> |name| < |link| && link[|link| - |name| - 1] == '/'
  {
    SplitCharLast(link, '/');
    Last(Split(link, "/"))
  }

  /** `"".join([pdf_name.split(".")[0], ".", image_link.split("/")[-1].split(".")[-1]])`: the PDF
      file name up to its first dot, then a dot, then the image file name's last extension. */
  function ImageName(pdfName: string, imageLink: string): string
  {
    Split(pdfName, ".")[0] + "." + Last(Split(LastSegment(imageLink), "."))
  }

  /** The image name is a stem of the PDF name with no dot in it, then a dot, then a suffix of the
      image link that holds neither a dot nor a slash. */
  lemma ImageNameShape(pdfName: string, imageLink: string) returns (stem: string, ext: string)
    ensures ImageName(pdfName, imageLink) == stem + "." + ext
    ensures |stem| <= |pdfName| && stem == pdfName[..|stem|] && '.' !in stem
    ensures stem == pdfName || pdfName[|stem|] == '.'
    ensures |ext| <= |imageLink| && ext == imageLink[|imageLink| - |ext|..]
    ensures '.' !in ext && '/' !in ext
  {
    SplitCharFirst(pdfName, '.');
    stem := Split(pdfName, ".")[0];
    var seg := LastSegment(imageLink);
    ext := ExtensionOf(seg);
    SuffixOfSuffix(imageLink, |seg|, |ext|);
  }

  /** `seg.split(".")[-1]` of a name without a slash: a suffix with neither a dot nor a slash. */
  lemma ExtensionOf(seg: string) returns (ext: string)
    requires '/' !in seg
    ensures ext == Last(Split(seg, "."))
    ensures |ext| <= |seg| && ext == seg[|seg| - |ext|..]
    ensures '.' !in ext && '/' !in ext
  {
    SplitCharLast(seg, '.');
    ext := Last(Split(seg, "."));
    NotInSuffix(seg, |seg| - |ext|, '/');
  }

  /** For a PDF link ".../stem.ext" and an image link ".../base.iext" the names are "stem.ext" and
      "stem.iext". */
  lemma FileNamesOf(dir: string, stem: string, ext: string, imageDir: string, base: string, imageExt: string)
    requires '/' !in stem && '/' !in ext && '.' !in stem
    requires '/' !in base && '/' !in imageExt && '.' !in imageExt
    ensures LastSegment(dir + "/" + (stem + "." + ext)) == stem + "." + ext
    ensures ImageName(stem + "." + ext, imageDir + "/" + (base + "." + imageExt)) == stem + "." + imageExt
  {
    var name := stem + "." + ext;
    SplitCharSnoc(dir, '/', name);
    SplitCharCons(stem, '.', ext);
    var image := base + "." + imageExt;
    SplitCharSnoc(imageDir, '/', image);
    SplitCharSnoc(base, '.', imageExt);
  }

  /** The key under which a file is stored: inside the Research-Foundation folder. */
  function ObjectKey(key: string): string
  {
    FOLDER + "/" + key
  }

  /** The public address of the object stored under `ObjectKey(key)` in the bucket. */
  function ObjectUrl(key: string): string
  {
    AWS_LINK + "/" + ObjectKey(key)
  }

  /** The link both scripts write to the table: the bucket name in the path, no folder. */
  function S3Link(bucket: string, key: string): string
  {
    AWS_LINK + "/" + bucket + "/" + key
  }

  /** The link written to the table is never the address of the object that was stored: the path
      names the bucket where the folder would have to be. */
  lemma LinkMissesObject(key: string)
    ensures S3Link(BUCKET, key) != ObjectUrl(key)
  {
    assert |S3Link(BUCKET, key)| != |ObjectUrl(key)|;
  }

  /** The S3 bucket: a class because uploads change it in place. */
  class ObjectStore {
    var objects: map<(string, string), seq<bv8>>

    constructor(initial: map<(string, string), seq<bv8>>)
      ensures objects == initial
    {
      objects := initial;
    }

    /** `s3_client.upload_fileobj(body, bucket, key)`; `ok` is false when the client raises. */
    method UploadFileObj(body: seq<bv8>, bucket: string, key: string, ok: bool) returns (raised: bool)
      modifies this
      ensures raised == !ok
      ensures objects == if ok then ApplyPuts(old(objects), [Put(bucket, key, body)]) else old(objects)
    {
      if !ok {
        return true;
      }
      objects := objects[(bucket, key) := body];
      return false;
    }
  }

  /** The committed and the pending rows once `rows` have been inserted one by one on a connection in
      the given mode: committed at once under autocommit, left pending otherwise. */
  function Inserting(committed: seq<InsertRow>, pending: seq<InsertRow>, rows: seq<InsertRow>, autocommit: bool)
    : (seq<InsertRow>, seq<InsertRow>)
  {
    if autocommit then (committed + rows, pending) else (committed, pending + rows)
  }

  /** Inserting two batches one after the other is inserting both. */
  lemma InsertingAppend(committed: seq<InsertRow>, pending: seq<InsertRow>, a: seq<InsertRow>, b: seq<InsertRow>, autocommit: bool)
    ensures var mid := Inserting(committed, pending, a, autocommit);
      Inserting(mid.0, mid.1, b, autocommit) == Inserting(committed, pending, a + b, autocommit)
  {
    SeqAssoc(committed, a, b);
    SeqAssoc(pending, a, b);
  }

  /** The `research_foundation` table behind one Snowflake connection: the committed rows, and the
      rows inserted on this connection since its last commit. `autocommit` is the connection's mode;
      both scripts connect without naming one, so Snowflake's default, on, applies to them: each
      successful insert is committed at once and nothing is ever pending. */
  class Warehouse {
    const autocommit: bool
    var committed: seq<InsertRow>
    var pending: seq<InsertRow>

    /** Under autocommit there are no pending rows. */
    predicate Valid()
      reads this
    {
      autocommit ==> pending == []
    }

    /** `snowflake.connector.connect(...)` on a table holding `table`. */
    constructor(table: seq<InsertRow>, autocommit: bool)
      ensures this.autocommit == autocommit
      ensures committed == table && pending == []
      ensures Valid()
    {
      this.autocommit := autocommit;
      committed := table;
      pending := [];
    }

    /** `cursor.execute(insert_query, row)`; `ok` is false when it raises. A successful insert is
        committed at once under autocommit and pending otherwise. */
    method Execute(row: InsertRow, ok: bool) returns (raised: bool)
      requires Valid()
      modifies this
      ensures raised == !ok
      ensures Valid()
      ensures !ok ==> committed == old(committed) && pending == old(pending)
      ensures ok ==> (committed, pending) == Inserting(old(committed), old(pending), [row], autocommit)
    {
      if !ok {
        return true;
      }
      if autocommit {
        committed := committed + [row];
      } else {
        pending := pending + [row];
      }
      return false;
    }

    /** `conn.commit()`; `ok` is false when it raises. */
    method Commit(ok: bool) returns (raised: bool)
      requires Valid()
      modifies this
      ensures raised == !ok
      ensures Valid()
      ensures committed == if ok then old(committed) + old(pending) else old(committed)
      ensures pending == if ok then [] else old(pending)
    {
      if !ok {
        return true;
      }
      committed := committed + pending;
      pending := [];
      return false;
    }
  }

  /** `requests.get(url)` followed, on status 200, by the upload to `ObjectKey(key)`: raises when the
      request does, or when the upload does. */
  predicate TransferRaises(cloud: Cloud, url: string, bucket: string, key: string)
  {
    match cloud.http(url)
    case None => true
    case Some(reply) => reply.status == 200 && !cloud.putOk(bucket, ObjectKey(key))
  }

  /** The upload that takes place: only on status 200, into the folder. */
  function TransferPuts(cloud: Cloud, url: string, bucket: string, key: string): (puts: seq<Put>)
    ensures |puts| <= 1
    ensures puts != [] ==> !TransferRaises(cloud, url, bucket, key)
    ensures puts != [] ==> puts[0] == Put(bucket, ObjectKey(key), cloud.http(url).value.body)
    ensures puts != [] <==> cloud.http(url).Some? && cloud.http(url).value.status == 200 &&
                            cloud.putOk(bucket, ObjectKey(key))
  {
    match cloud.http(url)
    case None => []
    case Some(reply) =>
      if reply.status == 200 && cloud.putOk(bucket, ObjectKey(key)) then [Put(bucket, ObjectKey(key), reply.body)]
      else []
  }

  /** The first half of both scripts' `upload_to_s3`. */
  method Transfer(store: ObjectStore, cloud: Cloud, url: string, bucket: string, key: string) returns (raised: bool)
    modifies store
    ensures raised == TransferRaises(cloud, url, bucket, key)
    ensures store.objects == ApplyPuts(old(store.objects), TransferPuts(cloud, url, bucket, key))
  {
    var reply := cloud.http(url);
    if reply.None? {
      return true;
    }
    if reply.value.status == 200 {
      var objectKey := ObjectKey(key);
      raised := store.UploadFileObj(reply.value.body, bucket, objectKey, cloud.putOk(bucket, objectKey));
    } else {
      raised := false;
    }
  }

  /** What one row contributes before its insert: the uploads that took place, and the row to insert
      or `Raised`. */
  datatype Step = Step(puts: seq<Put>, row: Outcome<InsertRow>)

  /** The effect of an upload loop so far: every upload that took place, the rows inserted, and
      whether an exception left the loop. */
  datatype Run = Run(puts: seq<Put>, rows: seq<InsertRow>, failed: bool)

  /** A row goes through when its step yields a row and inserting that row does not raise. */
  predicate RowGoesThrough(s: Step, cloud: Cloud)
  {
    s.row.Returned? && cloud.executeOk(s.row.value)
  }

  /** The upload loop over `records`, stopping at the first exception. */
  function RunOf(records: seq<Record>, cloud: Cloud, step: (Record, Cloud) -> Step): Run
  {
    if records == [] then Run([], [], false)
    else
      var prev := RunOf(records[..|records| - 1], cloud, step);
      if prev.failed then prev
      else
        var s := step(records[|records| - 1], cloud);
        if RowGoesThrough(s, cloud) then Run(prev.puts + s.puts, prev.rows + [s.row.value], false)
        else Run(prev.puts + s.puts, prev.rows, true)
  }

  /** One more record, after a prefix that did not fail. */
  lemma RunOfNext(records: seq<Record>, i: nat, cloud: Cloud, step: (Record, Cloud) -> Step)
    requires i < |records| && !RunOf(records[..i], cloud, step).failed
    ensures var prev := RunOf(records[..i], cloud, step);
      var s := step(records[i], cloud);
      RunOf(records[..i + 1], cloud, step) ==
        if RowGoesThrough(s, cloud) then Run(prev.puts + s.puts, prev.rows + [s.row.value], false)
        else Run(prev.puts + s.puts, prev.rows, true)
  {
    assert records[..i + 1][..i] == records[..i];
    assert records[..i + 1][i] == records[i];
  }

  /** Once the loop has failed on a prefix, the rest of the records change nothing. */
  lemma {:induction false} RunOfStaysFailed(records: seq<Record>, n: nat, cloud: Cloud, step: (Record, Cloud) -> Step)
    requires n <= |records| && RunOf(records[..n], cloud, step).failed
    ensures RunOf(records, cloud, step) == RunOf(records[..n], cloud, step)
    decreases |records| - n
  {
    if n == |records| {
      assert records[..n] == records;
    } else {
      assert records[..n + 1][..n] == records[..n];
      RunOfStaysFailed(records, n + 1, cloud, step);
    }
  }

  /** A loop that did not fail inserted one row per record, in order: the row of that record's step. */
  lemma {:induction false} RunOfRows(records: seq<Record>, cloud: Cloud, step: (Record, Cloud) -> Step)
    requires !RunOf(records, cloud, step).failed
    ensures var rows := RunOf(records, cloud, step).rows;
      && |rows| == |records|
      && forall i :: 0 <= i < |records| ==> step(records[i], cloud).row == Returned(rows[i])
    decreases |records|
  {
    if records != [] {
      var init := records[..|records| - 1];
      RunOfRows(init, cloud, step);
      var rows := RunOf(records, cloud, step).rows;
      var prevRows := RunOf(init, cloud, step).rows;
      forall i | 0 <= i < |records|
        ensures step(records[i], cloud).row == Returned(rows[i])
      {
        IndexSnoc(prevRows, step(records[|records| - 1], cloud).row.value, i);
        if i < |init| {
          assert records[i] == init[i];
        }
      }
    }
  }

  /** A loop that failed stopped at a first failing record: the records before it went through, and
      the rows inserted are theirs. */
  lemma {:induction false} RunOfFirstFailure(records: seq<Record>, cloud: Cloud, step: (Record, Cloud) -> Step)
    returns (i: nat)
    requires RunOf(records, cloud, step).failed
    ensures i < |records|
    ensures !RunOf(records[..i], cloud, step).failed
    ensures !RowGoesThrough(step(records[i], cloud), cloud)
    ensures RunOf(records, cloud, step).rows == RunOf(records[..i], cloud, step).rows
    decreases |records|
  {
    var init := records[..|records| - 1];
    if RunOf(init, cloud, step).failed {
      i := RunOfFirstFailure(init, cloud, step);
      assert init[..i] == records[..i];
      assert init[i] == records[i];
    } else {
      i := |records| - 1;
      assert records[..i] == init;
    }
  }

  /** The loop fails exactly when some record's row does not go through. */
  lemma {:induction false} RunOfFailed(records: seq<Record>, cloud: Cloud, step: (Record, Cloud) -> Step)
    ensures RunOf(records, cloud, step).failed <==>
            exists i :: 0 <= i < |records| && !RowGoesThrough(step(records[i], cloud), cloud)
    decreases |records|
  {
    if records != [] {
      var init := records[..|records| - 1];
      RunOfFailed(init, cloud, step);
      if RunOf(records, cloud, step).failed {
        if RunOf(init, cloud, step).failed {
          var k :| 0 <= k < |init| && !RowGoesThrough(step(init[k], cloud), cloud);
          assert records[k] == init[k];
        } else {
          assert !RowGoesThrough(step(records[|records| - 1], cloud), cloud);
        }
      } else {
        forall k | 0 <= k < |records|
          ensures RowGoesThrough(step(records[k], cloud), cloud)
        {
          if k < |init| {
            assert records[k] == init[k];
          }
        }
      }
    }
  }
}
