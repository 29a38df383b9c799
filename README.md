# Research Foundation pipeline, modelled in Dafny

This project models the deterministic core of a small research-publication system.

- A Selenium scraper reads the Research Foundation listing page by page. It extracts a record for each
  result and then looks up each record's PDF link.
- Two ingestion scripts copy every PDF and image into an S3 bucket and insert one row per record into
  a Snowflake table. One is the Airflow DAG; the other is a one-off loader that reads the JSON file.
- A FastAPI service offers user creation, login, image details, image bytes and the image listing.
- A Streamlit front end has three parts modelled here. The landing page draws the image grid. The
  Q&A page derives the PDF key, keeps the chat transcript and numbered notes, and splits the notes
  into PDF sections. A MySQL connection singleton is shared by the pages.

Every remote call is an oracle: a field of a datatype or a function parameter that answers a URL,
a key or a row. This covers the browser, `requests`, S3, Snowflake, bcrypt, the vector index, the
language model and the NVIDIA API. `Outcome.Raised` stands for an exception that escapes the Python
function being modelled.

State that the source changes in place is modelled as classes:
- the S3 bucket (`Storage.ObjectStore`);
- Snowflake's committed and uncommitted rows on one connection, with its autocommit mode (`Storage.Warehouse`);
- the Q&A page's session state (`QaInterface.QaSession`);
- the landing page's session state (`UserLanding.LandingSession`);
- the singleton registry (`Db.Registry`).

`get_pdf_documents` fills the records in place, so it works on an `array`.

The modules are laid out as follows.
- `Py` and `PyStr` give Python's `range`, `split`, `join`, `strip`, `rsplit`, `capitalize`, `replace`
  and `str(n)` with Python's semantics.
- `WebScraper` models db_setup_scripts/web_scraper.py. The DAG's scraping task is the same code,
  except that it sleeps instead of waiting for result rows. The `waitForRows` flag tells the two apart.
- `Storage` holds what both ingestion scripts share. `ExtractUpload` models the DAG and `JsonToS3`
  the loader.
- `Api`, `UserLanding`, `QaInterface` and `Db` follow the FastAPI file and the three Streamlit files.

Several behaviours of the code are surprising. Each is proved as a property of the model, as written:
- "Add to Notes" numbers notes 1, 3, 4, ... (`QaInterface.NoteNumbering`).
- Every failed login and every missing image detail reaches the client as 500, never as 401 or 404
  (`Api.LoginFailuresAre500`, `Api.MissingDetailsAre500`).
- The S3 link stored in Snowflake never addresses the stored object (`Storage.LinkMissesObject`).
- The DAG writes a link even for a file it did not upload (`ExtractUpload.LinkWithoutUpload`).
- Every Snowflake connection is opened without naming an autocommit mode, so Snowflake's default, on,
  applies. Each insert is committed by itself, and the `commit()` calls change nothing: a failed
  upload run leaves the rows before the failing record committed (`ExtractUpload.DagRowsBeforeFailure`,
  `JsonToS3.JsonRowsBeforeFailure`), and a user whose `commit()` fails is stored although the answer
  is 500 (`Api.CreatedDespite500`).
- The user table does not keep usernames unique and the login `SELECT` has no `ORDER BY`, so with a
  duplicated username login is checked against whichever row the warehouse answers
  (`Api.DuplicateUserAmbiguous`).
- Saving the notes to PDF raises when any transcript added to them holds a character above U+00FF,
  such as a curly quote in a model answer (`QaInterface.SavedNotesRaise`).

Three more behaviours of the code are easy to miss, and the model follows them:
- `download_pdf` returns `None` for any status other than 200, without raising, and it never checks
  the content type; on 200 it writes the body to a path relative to the working directory, and a
  failed write raises into the button's `except` (`QaInterface.DownloadPdf`).
- A failed query leaves the user's history entry and both user transcript lines in place, because
  they are appended before the query runs (`QaInterface.QaSession.SubmitQuery`).
- "Clear Chat" keeps the index and clears only the history and the transcript
  (`QaInterface.QaSession.ClearChat`).

## Model

| member | source | states |
|---|---|---|
| Py.Range | db_setup_scripts/web_scraper.py:92 | every element of `range(start, stop, step)` lies in `[start, stop)` |
| Py.RangeSpec | streamlit/pages/user_landing.py:207 | element k of `range` is `start + k*step`; the range is empty iff `stop <= start`; the last element is within one step of `stop` |
| Py.RangeSteps | airflow/dags/dag_extract_upload.py:109 | `range(start, start + k*step, step)` has exactly k elements, the i-th being `start + i*step` |
| Py.KeepMapAll | streamlit/pages/qa_interface.py:92-93 | a list comprehension whose filter keeps every element maps `f` over all of them, in order |
| Py.KeepMapSatisfies | streamlit/pages/qa_interface.py:92-93 | when every kept element's image satisfies a property, so does every element of the comprehension |
| PyStr.FindFrom | streamlit/pages/qa_interface.py:242 | `find` returns the first occurrence at or after `start`, or no index when there is none |
| PyStr.SplitJoin | streamlit/pages/qa_interface.py:91 | joining the pieces of `split(sep)` with `sep` gives back the string |
| PyStr.SplitPiecesFree | streamlit/pages/qa_interface.py:91 | no piece of a split contains the separator |
| PyStr.SplitCharCount | streamlit/pages/qa_interface.py:167 | splitting on a character gives at least two pieces iff the character occurs |
| PyStr.SplitCharFirst | db_setup_scripts/web_scraper.py:52 | `s.split(c)[0]` is the prefix of `s` before its first `c`, or all of `s` when `c` does not occur |
| PyStr.SplitCharLast | airflow/dags/dag_extract_upload.py:194 | `s.split(c)[-1]` is the suffix of `s` after its last `c`, or all of `s` when `c` does not occur |
| PyStr.RFind | fast_api/api.py:136 | the index of the last `c`: no `c` follows it, and there is none iff `c` does not occur |
| PyStr.RSplitOnceHead | fast_api/api.py:136 | `s.rsplit(c, 1)[0]` is `s` when `c` is absent, else the text before the last `c` |
| PyStr.LStrip | streamlit/pages/qa_interface.py:93 | `lstrip` keeps a suffix of the text that does not start with whitespace |
| PyStr.LStripDropsSpace | streamlit/pages/qa_interface.py:93 | what `lstrip` drops is all whitespace |
| PyStr.RStrip | streamlit/pages/qa_interface.py:93 | `rstrip` keeps a prefix of the text that does not end with whitespace |
| PyStr.RStripDropsSpace | streamlit/pages/qa_interface.py:93 | what `rstrip` drops is all whitespace |
| PyStr.StripShape | streamlit/pages/qa_interface.py:93-94 | `strip` is the middle of `s` between an all-whitespace head and tail, and it has no whitespace at either end |
| PyStr.StripIdempotent | streamlit/pages/qa_interface.py:93-94 | stripping twice is stripping once |
| PyStr.CapitalizeSpec | streamlit/pages/qa_interface.py:207 | `capitalize` upper-cases the first character and lower-cases the rest |
| PyStr.ReplaceChar | streamlit/pages/user_landing.py:221 | after replacing `c` by text without `c`, no `c` is left; text without `c` is unchanged |
| PyStr.ReplaceCharAppend | streamlit/pages/user_landing.py:221 | replacing distributes over concatenation |
| PyStr.NatToString | streamlit/pages/qa_interface.py:244 | `str(n)` is a non-empty string of decimal digits |
| PyStr.NatToStringInjective | streamlit/pages/qa_interface.py:243-244 | different numbers print differently |
| PyStr.Latin1Concat | streamlit/pages/qa_interface.py:103 | a concatenation encodes as Latin-1 iff both parts do |
| PyStr.JoinLatin1 | streamlit/pages/qa_interface.py:93-103 | a join with a Latin-1 separator encodes iff every part does |
| PyStr.SplitLatin1 | streamlit/pages/qa_interface.py:91-103 | text split on a Latin-1 separator encodes iff every piece does |
| PyStr.StripLatin1 | streamlit/pages/qa_interface.py:93-103 | stripping keeps Latin-1 text Latin-1 |
| WebScraper.ImageLink | db_setup_scripts/web_scraper.py:49-56 | the image link is the `src` up to its first `?`, or the default icon when the element is missing; it never holds `?`; the DAG's getter (airflow/dags/dag_extract_upload.py:57-64) is the same |
| WebScraper.ScrapeRowFallbacks | db_setup_scripts/web_scraper.py:21-27 | every getter falls back on its own: "" for the link and the summary, no title, the default icon; a fresh record has no `pdf_link`; the DAG's getters (airflow/dags/dag_extract_upload.py:41-64) are the same |
| WebScraper.PageRecords | db_setup_scripts/web_scraper.py:75-86 | one record per result row, in row order; the per-row `except` is never taken |
| WebScraper.ScrapeSinglePage | db_setup_scripts/web_scraper.py:69-86 | the loop over the rows yields the page's outcome: `Raised` when loading fails or, with the wait, when no row appears; the DAG's copy (airflow/dags/dag_extract_upload.py:87-105) is the same without the wait |
| WebScraper.PageUrlHasOffset | db_setup_scripts/web_scraper.py:93 | each page URL carries `&first={offset}&` right after the base URL |
| WebScraper.PageUrlInjective | db_setup_scripts/web_scraper.py:92-93 | different offsets give different URLs, so no page is read twice |
| WebScraper.OffsetUrlInjective | db_setup_scripts/web_scraper.py:92-93 | with the base and parameters of the f-string fixed, the URL determines the offset |
| WebScraper.PageOffsetsSpec | db_setup_scripts/web_scraper.py:92 | `num_pages` offsets 0, 10, ..., in order, and none when `num_pages <= 0` |
| WebScraper.PagesDataRaised | db_setup_scripts/web_scraper.py:90-99 | the page loop raises iff one of its pages does |
| WebScraper.PagesDataAppend | db_setup_scripts/web_scraper.py:95 | `extend` concatenates the pages' records in page order |
| WebScraper.PagesDataFresh | db_setup_scripts/web_scraper.py:77-82 | no scraped record has a `pdf_link` or a `?` in its image link |
| WebScraper.ScrapePages | db_setup_scripts/web_scraper.py:90-99 | the loop yields the records of the pages at `range(0, num_pages*10, 10)` |
| WebScraper.PagesDataStaysRaised | db_setup_scripts/web_scraper.py:92-94 | once a page raises, the whole loop raises |
| WebScraper.FirstFailure | db_setup_scripts/web_scraper.py:32-37 | every lookup before the first failing one succeeds, and that one fails |
| WebScraper.FillPdfLinksSpec | db_setup_scripts/web_scraper.py:30-39 | only `pdf_link` changes; it is set exactly for the records before the first failing lookup; the DAG's copy (airflow/dags/dag_extract_upload.py:66-76) is the same |
| WebScraper.FillPdfLinksAll | db_setup_scripts/web_scraper.py:32-36 | when every lookup succeeds, every record gets a link |
| WebScraper.GetPdfDocuments | db_setup_scripts/web_scraper.py:30-39 | fills in place, stops at the first failing lookup, and returns the same list; the DAG's copy (airflow/dags/dag_extract_upload.py:66-76) is the same |
| WebScraper.ScrapeAndFill | db_setup_scripts/web_scraper.py:103-104 | the ten pages, then the PDF links; a failed page loop fails the run |
| Storage.ApplyPutsAppend | airflow/dags/dag_extract_upload.py:169-173 | uploading one batch and then another is uploading both |
| Storage.ApplyPutsLookup | db_setup_scripts/json_to_s3.py:84 | the last upload to a key decides its content; other keys keep theirs |
| Storage.LastSegment | db_setup_scripts/json_to_s3.py:58 | `link.split("/")[-1]` is the suffix after the last `/`, or the link itself when there is no `/` |
| Storage.ImageNameShape | airflow/dags/dag_extract_upload.py:195 | the image name is the PDF name up to its first dot, a dot, and the image link's last extension |
| Storage.ExtensionOf | db_setup_scripts/json_to_s3.py:59 | `seg.split(".")[-1]` is a suffix without dot or slash |
| Storage.FileNamesOf | db_setup_scripts/json_to_s3.py:58-59 | `.../stem.ext` and `.../base.iext` give the names `stem.ext` and `stem.iext` |
| Storage.LinkMissesObject | airflow/dags/dag_extract_upload.py:172-176 | the stored link names the bucket where the object's folder would have to be, so it is never the object's address |
| Storage.ObjectStore.constructor | airflow/dags/dag_extract_upload.py:146-151 | the bucket starts with the given objects |
| Storage.ObjectStore.UploadFileObj | airflow/dags/dag_extract_upload.py:169-173 | a successful `upload_fileobj` stores the body at the key; a failed one changes nothing |
| Storage.Warehouse.constructor | db_setup_scripts/json_to_s3.py:31-38 | a new connection in the given autocommit mode has the table's rows committed and none pending |
| Storage.Warehouse.Execute | airflow/dags/dag_extract_upload.py:200-206 | a successful insert is committed at once under autocommit and pending otherwise; a failed one changes nothing; nothing is ever pending under autocommit |
| Storage.Warehouse.Commit | airflow/dags/dag_extract_upload.py:208 | a successful commit moves the pending rows into the committed ones; a failed one changes nothing |
| Storage.InsertingAppend | airflow/dags/dag_extract_upload.py:193-206 | inserting one batch of rows and then another is inserting both, in either mode |
| Storage.TransferPuts | airflow/dags/dag_extract_upload.py:167-173 | at most one upload, into the folder; it happens iff the status is 200 and the upload goes through |
| Storage.Transfer | db_setup_scripts/json_to_s3.py:81-84 | raises iff the request raises or the upload after a 200 does; the bucket gets exactly that upload |
| Storage.RunOfNext | airflow/dags/dag_extract_upload.py:193-206 | one more row in the loop adds its uploads, and its insert when the row goes through |
| Storage.RunOfStaysFailed | airflow/dags/dag_extract_upload.py:214-216 | after an exception the remaining records change nothing |
| Storage.RunOfRows | db_setup_scripts/json_to_s3.py:57-69 | a loop that did not fail inserted one row per record, in order |
| Storage.RunOfFailed | db_setup_scripts/json_to_s3.py:57-76 | the loop fails iff some record's row does not go through |
| Storage.RunOfFirstFailure | airflow/dags/dag_extract_upload.py:193-216 | a failed loop stopped at a first failing record: the records before it went through, and the rows inserted are theirs |
| ExtractUpload.DagOffsets | airflow/dags/dag_extract_upload.py:109 | the DAG reads the pages at offsets 0, 10, ..., 90 |
| ExtractUpload.ScrapePdfs | airflow/dags/dag_extract_upload.py:108-117 | the scraping task yields the ten pages' records with their PDF links filled in |
| ExtractUpload.LinkWithoutUpload | airflow/dags/dag_extract_upload.py:168-177 | a status other than 200 stores nothing, yet the link is returned |
| ExtractUpload.UploadToS3 | airflow/dags/dag_extract_upload.py:165-180 | the link whatever the status, and any exception re-raised; the bucket gets the transfer's upload |
| ExtractUpload.UploadRow | airflow/dags/dag_extract_upload.py:194-198 | a record without `pdf_link` raises; otherwise the PDF, then the image, and a failure of either raises |
| ExtractUpload.DagRows | airflow/dags/dag_extract_upload.py:200-206 | when no row raises, row i has record i's PDF name, title, the two S3 links and the summary |
| ExtractUpload.MissingPdfLinkFails | airflow/dags/dag_extract_upload.py:194 | a record left without a PDF link makes the upload task fail |
| ExtractUpload.DagRowsBeforeFailure | airflow/dags/dag_extract_upload.py:193-206 | when the loop fails, the rows inserted are those of the records before the first failing one, in order |
| ExtractUpload.InsertRows | airflow/dags/dag_extract_upload.py:193-206 | the loop's uploads and inserts are those of the run, up to the first exception; the inserts are committed under autocommit and pending otherwise |
| ExtractUpload.UploadToSnowflakeAndS3 | airflow/dags/dag_extract_upload.py:134-216 | uploads stay in S3; under autocommit every row inserted before a failure stays committed; with autocommit off the rows are committed iff every row and the commit succeed; any failure raises |
| JsonToS3.UploadLinkSpec | db_setup_scripts/json_to_s3.py:79-89 | the link is lost only when an exception is caught; a status other than 200 still gives it |
| JsonToS3.UploadToS3 | db_setup_scripts/json_to_s3.py:79-89 | the link or `None`, and the bucket gets the transfer's upload |
| JsonToS3.UploadRow | db_setup_scripts/json_to_s3.py:58-67 | both uploads are attempted; the row is keyed by the webpage link's last segment, with NULL for a lost link |
| JsonToS3.JsonRows | db_setup_scripts/json_to_s3.py:63-69 | when no row raises, row i is record i's insert, keyed by its webpage link |
| JsonToS3.JsonRunFailed | db_setup_scripts/json_to_s3.py:57-76 | only a missing PDF link or a failed insert stops the loop; failed uploads do not |
| JsonToS3.JsonRowsBeforeFailure | db_setup_scripts/json_to_s3.py:57-69 | when the loop fails, the rows inserted are those of the records before the first failing one, in order |
| JsonToS3.InsertRows | db_setup_scripts/json_to_s3.py:57-69 | the loop's uploads and inserts are those of the run, up to the first exception; the inserts are committed under autocommit and pending otherwise |
| JsonToS3.UploadFiles | db_setup_scripts/json_to_s3.py:54-76 | never raises; unreadable JSON changes nothing; under autocommit every row inserted before a failure stays committed; with autocommit off the rows are committed iff the loop and the commit succeed |
| Api.CatchAll | fast_api/api.py:120-121 | the `except Exception` turns whatever the `try` raised, `HTTPException` included, into 500 |
| Api.CreateUser | fast_api/api.py:72-96 | the new row with the hashed password is stored iff connect and insert succeed and, with autocommit off, the commit does; success is answered iff the commit succeeds too; any other failure is 500, or an escaping error for the connect |
| Api.CreatedDespite500 | fast_api/api.py:84-91 | under the default autocommit a failed commit answers 500, yet the user row is stored |
| Api.Where | fast_api/api.py:106-107 | a `WHERE` clause selects no more rows than the table holds |
| Api.WhereSpec | fast_api/api.py:106-107 | the selected rows are table rows that match, every matching row is selected, and none are iff no row matches |
| Api.WhereAppend | fast_api/api.py:106-107 | selecting from a table with rows appended selects the old matches, then the new ones |
| Api.FetchOneSpec | fast_api/api.py:107-108 | `fetchone` after a `SELECT` without `ORDER BY` answers a matching row, and none iff no row matches |
| Api.FetchOneAny | fast_api/api.py:107-108 | every matching row is the answer for some choice of the warehouse |
| Api.FindUser | fast_api/api.py:106-108 | `fetchone` gives a row with the username, the one the warehouse chooses, and none iff there is no such row |
| Api.LoginSpec | fast_api/api.py:99-125 | login succeeds iff the user exists and the password matches, returning that username; every other failure is 500 |
| Api.LoginFailuresAre500 | fast_api/api.py:110-121 | an unknown user and a wrong password both get 500, not 404 or 401 |
| Api.CreateThenLogin | fast_api/api.py:72-125 | a user created under a fresh username can log in with the same password |
| Api.DuplicateUserAmbiguous | fast_api/api.py:82-86 | after a second row with an existing username, login may be checked against the new row, and every row it could be checked against before (fast_api/api.py:106-116) |
| Api.LookupKeySpec | fast_api/api.py:136 | the lookup key is the last `/`-segment up to its last `.`, and it holds no `/` |
| Api.LookupKeyOf | fast_api/api.py:136 | `dir/name.ext` is looked up as `name` |
| Api.FindImage | fast_api/api.py:139-141 | a row whose `image_key` matches, the one the warehouse chooses, and none iff no row matches |
| Api.GetImageDetails | fast_api/api.py:129-154 | the found row's title and brief; a missing row or a failed query gives 500; a failed connect escapes |
| Api.MissingDetailsAre500 | fast_api/api.py:143-150 | a missing row is reported as 500, not 404 |
| Api.FetchImage | fast_api/api.py:157-176 | a failure to make the S3 client escapes unhandled; otherwise the PNG base64 of the object, 404 iff the key is missing, and 500 for any other failure |
| Api.FilterImages | fast_api/api.py:187 | the listed keys keep only `.png`, `.jpg` and `.jpeg` names |
| Api.FilterImagesMembers | fast_api/api.py:187 | a key is kept iff it was listed and is an image key |
| Api.FilterImagesAppend | fast_api/api.py:187 | the filter keeps listing order |
| Api.ListedKeys | fast_api/api.py:183 | one page of at most 1000 keys, all under `test/` |
| Api.UnderPrefix | fast_api/api.py:183 | exactly the bucket's keys under `test/` |
| Api.ListImages | fast_api/api.py:179-191 | a failure to make the S3 client escapes unhandled; otherwise the filtered listing, with 500 for an empty listing or a failed call |
| Api.ListImagesSpec | fast_api/api.py:184-188 | every listed file is an image key of the page, and every such key is listed |
| Api.ListImagesComplete | fast_api/api.py:183-188 | with at most 1000 keys under `test/`, every image key is listed |
| UserLanding.Slice | streamlit/pages/user_landing.py:209 | `files[i:i+n]` is the run of files from i, clamped at the end |
| UserLanding.RowsAt | streamlit/pages/user_landing.py:207-209 | one slice per start, in order |
| UserLanding.GridRowAt | streamlit/pages/user_landing.py:207-209 | row k starts at file k*n and is full unless it is the last |
| UserLanding.GridRowsSpec | streamlit/pages/user_landing.py:207-209 | no rows iff no files; every row has 1 to n files; row k, column j holds file k*n + j |
| UserLanding.GridRowsFlatten | streamlit/pages/user_landing.py:207-209 | the rows together hold every file once, in listing order |
| UserLanding.ImageDetails | streamlit/pages/user_landing.py:123-132 | the answer's title and brief, or ("Untitled", "No description available.") when the request fails |
| UserLanding.DetailsEndToEnd | streamlit/pages/user_landing.py:123-132 | a card shows the stored title and brief of a found image, and the fallback pair otherwise, by way of the API lookup (fast_api/api.py:129-154) |
| UserLanding.ImageWithInfoFields | streamlit/pages/user_landing.py:135-145 | the image, title and description stand verbatim at their places in the card template |
| UserLanding.RenderedDescription | streamlit/pages/user_landing.py:221 | the rendered description has no line break left |
| UserLanding.RowViewSpec | streamlit/pages/user_landing.py:209-224 | a rendered row shows the cell of file j in column j |
| UserLanding.GridViewSpec | streamlit/pages/user_landing.py:207-224 | a rendered grid shows row k's cells in row k |
| UserLanding.CreateImageGridExits | streamlit/pages/user_landing.py:201-228 | a failed listing gives no grid; width 0 raises; a negative width or an empty listing draws no rows |
| UserLanding.GridShowsFiles | streamlit/pages/user_landing.py:201-226 | column j of row k shows the card of file k*n + j, at most n to a row |
| UserLanding.GridRowCells | streamlit/pages/user_landing.py:209-224 | row k shows the files from k*n on, one per column |
| UserLanding.SummaryPromptFields | streamlit/pages/user_landing.py:160 | the prompt carries the title (or "None") and the unreplaced description at fixed places |
| UserLanding.NvidiaSummary | streamlit/pages/user_landing.py:148-181 | the first choice's content; the error text when the request fails; a missing choice raises |
| UserLanding.LandingSession.constructor | streamlit/pages/user_landing.py:241-247 | the session starts with the given keys |
| UserLanding.LandingSession.Initialise | streamlit/pages/user_landing.py:241-247 | absent selection keys become `None`; present ones keep their values |
| UserLanding.LandingSession.HandleClick | streamlit/pages/user_landing.py:184-198 | the selection is stored, then the summary; when fetching the summary raises, only the selection is stored |
| QaInterface.Stem | streamlit/pages/qa_interface.py:167 | the part of the image key before its first `.` |
| QaInterface.PdfKeyRaised | streamlit/pages/qa_interface.py:167 | deriving the key raises iff the stem has no `/` |
| QaInterface.PdfKeyShape | streamlit/pages/qa_interface.py:167 | the key is the text of the stem between its first `/` and the next `/` or the stem's end |
| QaInterface.SecondPiece | streamlit/pages/qa_interface.py:167 | `split('/')[1]` sits right after the first `/` |
| QaInterface.PdfKeyOfImageKey | streamlit/pages/qa_interface.py:167 | `dir/stem.ext` gives `stem` |
| QaInterface.FetchExample | streamlit/pages/qa_interface.py:167 | "test/abc.png" gives "abc" |
| QaInterface.PdfUrl | streamlit/pages/qa_interface.py:171-172 | the PDF URL is the S3 folder, then the key, then `.pdf` |
| QaInterface.DownloadPdf | streamlit/pages/qa_interface.py:47-56 | the temp path for status 200 once the body is written, `None` for any other status; raises iff the request raises or, on 200, the write of the temp file fails |
| QaInterface.TranscriptAppend | streamlit/pages/qa_interface.py:202-207 | the transcript of two histories is the concatenation of theirs |
| QaInterface.TranscriptSnoc | streamlit/pages/qa_interface.py:202-207 | each message appends its own line |
| QaInterface.CapitalizedRoles | streamlit/pages/qa_interface.py:207 | the roles render as "User" and "Assistant" |
| QaInterface.TurnTranscript | streamlit/pages/qa_interface.py:207-227 | a rendered turn reads "User: q" then "Assistant: r", the handler's lines without the duplicated user line |
| QaInterface.JoinEmptySnoc | streamlit/pages/qa_interface.py:222-223 | accumulating tokens one by one gives their concatenation |
| QaInterface.NoteNumber | streamlit/pages/qa_interface.py:242-243 | the number is 1 iff the notes are empty |
| QaInterface.NewNote | streamlit/pages/qa_interface.py:244 | the header, a blank line, the stripped transcript and the separator |
| QaInterface.SplitAfterNote | streamlit/pages/qa_interface.py:242 | splitting notes that start with a note peels that note off |
| QaInterface.NewNoteSeparatedAtEnd | streamlit/pages/qa_interface.py:244 | a new note is separated only at its end iff its stripped transcript, framed by blank lines, holds no separator |
| QaInterface.Pieces | streamlit/pages/qa_interface.py:242-245 | one piece per added note |
| QaInterface.NotesSplit | streamlit/pages/qa_interface.py:242-245 | splitting the notes gives the notes' pieces, then the pieces of what follows |
| QaInterface.NoteNumbering | streamlit/pages/qa_interface.py:242-245 | the first note is numbered 1 and the k-th note, for k >= 2, k + 1 |
| QaInterface.SecondNoteIsNumberedThree | streamlit/pages/qa_interface.py:243-245 | the second note is numbered 3 |
| QaInterface.CreatePdfDownload | streamlit/pages/qa_interface.py:91-103 | the sections of the non-blank pieces of the notes, or an exception from the Latin-1 encoding, as `PdfOutput` gives |
| QaInterface.SaveNotes | streamlit/pages/qa_interface.py:270-276 | only the warning iff the notes are empty; otherwise the PDF of the notes or the exception making it raises |
| QaInterface.PdfOutput | streamlit/pages/qa_interface.py:91-103 | the sections are returned iff every line they write encodes as Latin-1, and the encoding raises otherwise |
| QaInterface.SectionLatin1Iff | streamlit/pages/qa_interface.py:93-99 | a section encodes iff the stripped piece it comes from does |
| QaInterface.SaveNotesLatin1 | streamlit/pages/qa_interface.py:91-103 | notes written entirely in Latin-1 always give their PDF |
| QaInterface.SectionOfShape | streamlit/pages/qa_interface.py:93-99 | the bold header is one line, and header and body lines rejoined give the stripped piece |
| QaInterface.NoteHeaderShape | streamlit/pages/qa_interface.py:244 | the note header is one ASCII line, starts with "Q" and ends in a non-space |
| QaInterface.SectionOfHeaderBody | streamlit/pages/qa_interface.py:93-99 | a header, a blank line and a body give that header and a blank line, then the body's lines |
| QaInterface.SectionOfPiece | streamlit/pages/qa_interface.py:93-99 | a note's piece is never blank, and its section is the note's section |
| QaInterface.SectionsOfNonBlank | streamlit/pages/qa_interface.py:92-93 | pieces none of which is blank give one section each, in order |
| QaInterface.PiecesNumbered | streamlit/pages/qa_interface.py:242-245 | the piece of note k carries number 1 for k = 0, and k + 2 after that |
| QaInterface.SavedNotes | streamlit/pages/qa_interface.py:91-100 | saving notes added from separator-free transcripts gives one section per note, headed "Query 1:", "Query 3:", ..., holding its transcript |
| QaInterface.NoteSectionLatin1 | streamlit/pages/qa_interface.py:93-103 | a note's section encodes iff its stripped transcript does |
| QaInterface.SavedNotesRaise | streamlit/pages/qa_interface.py:103 | saving notes added from separator-free transcripts raises iff some stripped transcript holds a character above U+00FF |
| QaInterface.NotesAfterNonEmpty | streamlit/pages/qa_interface.py:244-245 | after one "Add to Notes" the notes are never empty |
| QaInterface.QaSession.constructor | streamlit/pages/qa_interface.py:187-194 | no index; empty history, transcript and notes |
| QaInterface.QaSession.RenderedLines | streamlit/pages/qa_interface.py:207 | in a valid session every message renders as a "User: " or an "Assistant: " line |
| QaInterface.QaSession.FetchDocument | streamlit/pages/qa_interface.py:170-184 | the index is replaced and the history cleared iff the key is non-empty, the download is 200, the temp file is written and indexing succeeds; otherwise nothing changes |
| QaInterface.QaSession.RenderHistory | streamlit/pages/qa_interface.py:202-207 | each render appends the history's transcript while an index exists |
| QaInterface.QaSession.SubmitQuery | streamlit/pages/qa_interface.py:209-227 | the user entry and two user lines, then the streamed answer when the query succeeds |
| QaInterface.QaSession.ClearChat | streamlit/pages/qa_interface.py:230-234 | history and transcript emptied, the index kept |
| QaInterface.QaSession.AddToNotes | streamlit/pages/qa_interface.py:241-248 | the numbered, stripped transcript is appended to the notes and the transcript emptied |
| QaInterface.QaSession.AddRawToNotes | streamlit/pages/qa_interface.py:291-295 | the raw transcript is appended and then emptied |
| QaInterface.QaSession.ClearNotes | streamlit/pages/qa_interface.py:280-285 | the notes are emptied and nothing else changes |
| Db.DBConnection.constructor | streamlit/pages/db.py:13-19 | the instance keeps the connection and a buffered cursor on it |
| Db.DBConnection.GetCursor | streamlit/pages/db.py:29-31 | the buffered cursor made at construction, on the instance's own connection |
| Db.DBConnection.GetConnection | streamlit/pages/db.py:33-35 | the connection made at construction |
| Db.Registry.constructor | streamlit/pages/db.py:5 | no instance when the class is defined |
| Db.Registry.Construct | streamlit/pages/db.py:7-20 | raises "This class is a singleton!" while an instance exists; otherwise a successful connect records the new object as the instance |
| Db.Registry.GetInstance | streamlit/pages/db.py:22-27 | an existing instance is returned unchanged, else one is constructed; what it returns is the instance afterwards, which is never cleared |

## Left out

- Chunking, embedding, the vector store, retrieval and generation are library calls: `create_index`, `load_multimodal_data` and the query engine's token stream are oracles.
- `document_processors` is not part of this model.
- PDF layout, base64 encoding and the download link of `create_pdf_download` are left out; only the sections it writes and the Latin-1 encoding of the finished PDF are modelled. PyFPDF 1.x is taken as the library, whose `output(dest="S")` returns the PDF as `str` with core-font text as given, and the title and the date line are taken to be ASCII (an English month name).
- The HTML, CSS and page layout of the Streamlit pages, `st.rerun`, `st.switch_page` and widget keys are left out. The duplicate keys themselves are covered by the next line.
- The pages `admin.py`, `create_user.py`, `login.py`, `doc_detail.py` and `app.py`, and the architecture diagram, are not part of this model.
- Reading the listing with Selenium, sleeping, the JSON dump and load, and the XCom push are I/O. The JSON round trip is taken to turn a missing `pdf_link` into a `None` that raises on `split`.
- Image decoding and re-encoding (PIL, base64) are oracles: `Backend.imageAt` and the `toPngBase64` parameter of `Api.FetchImage`.
- WebScraper.PdfTitle: the utf-8 / unicode_escape / latin1 chain is the `reencode` oracle and is not modelled character by character.
- bcrypt hashing and checking are oracles. Pydantic's 422 for a malformed request body is not modelled.
- The closing of cursors and connections is left out. Uncommitted rows are shown as pending on the one connection, and Snowflake's own transaction handling beyond autocommit on or off is not modelled.
- `get_attribute` returning `None` for a missing attribute is not modelled; a found element always has its `href` or `src`.
- Rendering that Streamlit has already shown before an exception escapes is not modelled. An exception is `Raised` for the whole call.
- PyStr.Capitalize: correct for ASCII letters only; Python's Unicode case mapping is not modelled.
- QaInterface.QaSession: the `history`, `terminal_output` and `notes` keys are taken as present, as the chat block initialises them. The `KeyError` that reading `terminal_output` at streamlit/pages/qa_interface.py:239 raises before any document is fetched is not modelled. The write of `current_document` at streamlit/pages/qa_interface.py:166 is not modelled either: nothing on these pages reads that key.
- Db: the host, user, password and database passed to `mysql.connector.connect` are fixed in the source; the model takes only whether connecting succeeds.
- Api.ImageRow: the `title` and `brief` columns of the `test` table are taken as non-NULL strings, since the source gives the table no schema. A NULL `brief` would reach `description.replace` at streamlit/pages/user_landing.py:221 as `None` and raise there, which UserLanding.DetailsEndToEnd does not show.
- Api.GetImageDetails: the cursor error of the `finally` block after a failed connect is shown as an unhandled error, without its message.
- QaInterface.QaSession.AddRawToNotes: modelled as written, but the second "Terminal Output" text area at streamlit/pages/qa_interface.py:288 reuses the key "terminal_display" of line 239, so Streamlit raises a duplicate-widget error there and lines 288-317 (the second "Add to Notes" and "Save Notes to PDF" buttons included) are never reached.
- QaInterface.NotesSplit, QaInterface.NoteNumbering, QaInterface.SecondNoteIsNumberedThree, QaInterface.PiecesNumbered, QaInterface.SavedNotes, QaInterface.SavedNotesRaise: stated for transcripts that are separator-free, which `QaInterface.NewNoteSeparatedAtEnd` shows is exactly when a note adds no separator of its own. A transcript whose stripped text holds "\n\n---\n\n", starts with "---\n\n", ends with "\n\n---" or is "---" splits into extra pieces, and its numbering is not modelled.
