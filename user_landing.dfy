/** The landing page (streamlit/pages/user_landing.py): the grid of images listed by the API, the
    info card of each image, the NVIDIA summary behind "View Details", and the page's session state.
    HTTP calls are oracles keyed by URL or by prompt. */
module UserLanding {
  import opened Py
  import opened PyStr
  import Api

  const API_BASE_URL := "http://localhost:8000"
  const UNTITLED := "Untitled"
  const NO_DESCRIPTION := "No description available."
  const SUMMARY_ERROR := "Error retrieving summary."
  const IMAGES_PER_ROW := 5

  /** An HTTP answer: the status, and the body parsed as JSON (`None` when it is not JSON; `requests`
      then raises a `RequestException`). */
  datatype ApiReply<+T> = ApiReply(status: int, json: Option<T>)

  /** `response.raise_for_status()` raises for client and server errors. */
  predicate RaisesForStatus(status: int)
  {
    400 <= status < 600
  }

  /** A reply that the page's `except requests.RequestException` catches: no answer, an error status,
      or a body that is not JSON. */
  predicate RequestFailed<T>(reply: Option<ApiReply<T>>)
  {
    reply.None? || RaisesForStatus(reply.value.status) || reply.value.json.None?
  }

  // ---------------------------------------------------------------- the image grid

  /** `image_files[i:i + n]`, with Python's clamping of the end. */
  function Slice<T>(files: seq<T>, i: nat, n: nat): (row: seq<T>)
    ensures i < |files| ==> |row| <= n && i + |row| <= |files| && row == files[i..i + |row|]
    ensures i < |files| ==> |row| == (if i + n <= |files| then n else |files| - i)
  {
    if i >= |files| then [] else files[i..if i + n <= |files| then i + n else |files|]
  }

  /** The slices of `files` at each of `starts`. */
  function RowsAt<T>(files: seq<T>, starts: seq<nat>, n: nat): (rows: seq<seq<T>>)
    ensures |rows| == |starts|
    ensures forall k :: 0 <= k < |starts| ==> rows[k] == Slice(files, starts[k], n)
  {
    seq(|starts|, k requires 0 <= k < |starts| => Slice(files, starts[k], n))
  }

  /** The rows of `create_image_grid`: one slice per start in `range(0, len(image_files), n)`. */
  function GridRows<T>(files: seq<T>, n: nat): seq<seq<T>>
    requires n > 0
  {
    RowsAt(files, Range(0, |files|, n), n)
  }

  /** Row k starts at file k*n and is full unless it is the last one. */
  lemma GridRowAt<T>(files: seq<T>, n: nat, k: nat)
    requires n > 0 && k < |GridRows(files, n)|
    ensures var row := GridRows(files, n)[k];
      && k * n < |files| && 0 < |row| <= n && k * n + |row| <= |files| && row == files[k * n..k * n + |row|]
      && (k + 1 < |GridRows(files, n)| ==> |row| == n)
  {
    RangeSpec(0, |files|, n);
    var starts := Range(0, |files|, n);
    assert starts[k] == k * n;
    if k + 1 < |starts| {
      assert starts[k + 1] == (k + 1) * n == k * n + n;
    }
  }

  /** The rows are the slices [k*n, k*n + n): at most n items each, exactly n in all but the last,
      there is a row exactly when there is a file, and item j of row k is file k*n + j. */
  lemma GridRowsSpec<T>(files: seq<T>, n: nat)
    requires n > 0
    ensures var rows := GridRows(files, n);
      && (|rows| == 0 <==> |files| == 0)
      && (forall k :: 0 <= k < |rows| ==> 0 < |rows[k]| <= n)
      && (forall k :: 0 <= k < |rows| - 1 ==> |rows[k]| == n)
      && (forall k, j :: 0 <= k < |rows| && 0 <= j < |rows[k]| ==>
            0 <= k * n + j < |files| && rows[k][j] == files[k * n + j])
  {
    RangeSpec(0, |files|, n);
    var rows := GridRows(files, n);
    forall k | 0 <= k < |rows|
      ensures 0 < |rows[k]| <= n
      ensures k < |rows| - 1 ==> |rows[k]| == n
      ensures forall j :: 0 <= j < |rows[k]| ==> 0 <= k * n + j < |files| && rows[k][j] == files[k * n + j]
    {
      GridRowAt(files, n, k);
    }
  }

  /** The concatenation of the rows. */
  function Flatten<T>(rows: seq<seq<T>>): seq<T>
  {
    if rows == [] then [] else rows[0] + Flatten(rows[1..])
  }

  /** Reading the rows one after another gives back `image_files`. */
  lemma GridRowsFlatten<T>(files: seq<T>, n: nat)
    requires n > 0
    ensures Flatten(GridRows(files, n)) == files
  {
    FlattenFrom(files, 0, n);
  }

  /** The rows from `start` on hold exactly the files from `start` on. */
  lemma {:induction false} FlattenFrom<T>(files: seq<T>, start: nat, n: nat)
    requires n > 0 && start <= |files|
    ensures Flatten(RowsAt(files, Range(start, |files|, n), n)) == files[start..]
    decreases |files| - start
  {
    if start < |files| {
      var rest := Range(start + n, |files|, n);
      var row := Slice(files, start, n);
      assert Range(start, |files|, n) == [start] + rest;
      RowsAtCons(files, start, rest, n);
      FlattenCons(row, RowsAt(files, rest, n));
      if start + n <= |files| {
        FlattenFrom(files, start + n, n);
        assert row == files[start..start + n];
        assert files[start..start + n] + files[start + n..] == files[start..];
      } else {
        assert rest == [];
        assert RowsAt(files, rest, n) == [];
      }
    } else {
      assert Range(start, |files|, n) == [];
      assert RowsAt(files, [], n) == [];
    }
  }

  lemma RowsAtCons<T>(files: seq<T>, start: nat, rest: seq<nat>, n: nat)
    ensures RowsAt(files, [start] + rest, n) == [Slice(files, start, n)] + RowsAt(files, rest, n)
  {
    var l := RowsAt(files, [start] + rest, n);
    var r := [Slice(files, start, n)] + RowsAt(files, rest, n);
    forall k | 0 <= k < |l|
      ensures l[k] == r[k]
    {
      if k > 0 {
        assert ([start] + rest)[k] == rest[k - 1];
      }
    }
  }

  lemma FlattenCons<T>(row: seq<T>, rows: seq<seq<T>>)
    ensures Flatten([row] + rows) == row + Flatten(rows)
  {
    assert ([row] + rows)[1..] == rows;
  }

  /** What the browser is answered: the listing, each image, each image's details, and the NVIDIA
      completion for each prompt. */
  datatype Picture = Missing | Loaded(base64: Option<string>)

  datatype Backend = Backend(
    /** `load_image_from_fastapi` followed by `image_to_base64`: `Missing` when the request fails
        (no card is drawn), `Raised` for the decoding errors it does not catch. */
    imageAt: string -> Outcome<Picture>,
    detailsAt: string -> Option<ApiReply<DetailsJson>>,
    nvidiaAt: string -> Option<ApiReply<NvidiaJson>>)

  /** The JSON object of /image-details: its "title" and "brief", `None` where the key is absent. */
  datatype DetailsJson = DetailsJson(title: Option<string>, brief: Option<string>)

  /** The JSON of the chat completion: the `message.content` of each of its "choices" (`None`
      where a key is missing), or `None` when there is no "choices" key. */
  datatype NvidiaJson = NvidiaJson(choices: Option<seq<Option<string>>>)

  function ImageUrl(key: string): string
  {
    API_BASE_URL + "/fetch-image/" + key
  }

  function DetailsUrl(key: string): string
  {
    API_BASE_URL + "/image-details/" + key
  }

  /** `get_image_details_from_fastapi`: the "title" and "brief" of the answer, or the fixed
      fallback pair when the request fails. */
  function ImageDetails(reply: Option<ApiReply<DetailsJson>>): (details: (Option<string>, Option<string>))
    ensures RequestFailed(reply) ==> details == (Some(UNTITLED), Some(NO_DESCRIPTION))
    ensures !RequestFailed(reply) ==> details == (reply.value.json.value.title, reply.value.json.value.brief)
  {
    match reply
    case None => (Some(UNTITLED), Some(NO_DESCRIPTION))
    case Some(r) =>
      if RaisesForStatus(r.status) then (Some(UNTITLED), Some(NO_DESCRIPTION))
      else
        match r.json
        case None => (Some(UNTITLED), Some(NO_DESCRIPTION))
        case Some(d) => (d.title, d.brief)
  }

  /** What the browser receives for each answer of the API's `get_image_details`: the JSON of the
      details, FastAPI's `{"detail": ...}` object for an `HTTPException`, and a plain-text 500 for an
      exception that escapes the handler. */
  function ClientReply(r: Api.Response<Api.ImageDetails>): Option<ApiReply<DetailsJson>>
  {
    match r
    case Ok(body) => Some(ApiReply(200, Some(DetailsJson(Some(body.title), Some(body.brief)))))
    case HttpError(status) => Some(ApiReply(status, Some(DetailsJson(None, None))))
    case Unhandled => Some(ApiReply(500, None))
  }

  /** End to end: a card shows the stored title and brief of a found image, and the fallback pair
      whenever the API fails, which it reports as 500 whatever went wrong. */
  lemma DetailsEndToEnd(imageKey: string, images: seq<Api.ImageRow>, calls: Api.DbCalls, pick: nat)
    ensures var details := ImageDetails(ClientReply(Api.GetImageDetails(imageKey, images, calls, pick)));
      match Api.FindImage(images, Api.LookupKey(imageKey), pick)
      case Some(row) =>
        details == (if calls.connectOk && calls.executeOk then (Some(row.title), Some(row.brief))
                    else (Some(UNTITLED), Some(NO_DESCRIPTION)))
      case None => details == (Some(UNTITLED), Some(NO_DESCRIPTION))
  {
  }

  /** `str(x)` for a string or `None`, as an f-string prints it. */
  function Show(x: Option<string>): string
  {
    match x
    case None => "None"
    case Some(s) => s
  }

  const CARD_HEAD := "\n    <div class=\"image-container\">\n        <img src=\"data:image/png;base64,"
  const CARD_AFTER_IMAGE :=
    "\" class=\"image-main\">\n        <div class=\"info-card\">\n            <div class=\"info-title\">"
  const CARD_AFTER_TITLE := "</div>\n            <div class=\"info-description\">"
  const CARD_TAIL :=
    "</div>\n            <div class=\"view-details-container\"></div>\n        </div>\n    </div>\n    "

  /** `create_image_with_info(image_base64, title, description)` */
  function ImageWithInfo(image: string, title: string, description: string): string
  {
    CARD_HEAD + image + CARD_AFTER_IMAGE + title + CARD_AFTER_TITLE + description + CARD_TAIL
  }

  /** The three values stand verbatim in the card, each at its place in the fixed template. */
  lemma ImageWithInfoFields(image: string, title: string, description: string)
    ensures var card := ImageWithInfo(image, title, description);
      var t := |CARD_HEAD| + |image| + |CARD_AFTER_IMAGE|;
      var d := t + |title| + |CARD_AFTER_TITLE|;
      && OccursAt(card, image, |CARD_HEAD|)
      && OccursAt(card, title, t)
      && OccursAt(card, description, d)
      && |card| == d + |description| + |CARD_TAIL|
  {
    TemplateFields(CARD_HEAD, image, CARD_AFTER_IMAGE, title, CARD_AFTER_TITLE, description, CARD_TAIL);
  }

  /** Where the three holes of a template h x a y b z t are. */
  lemma TemplateFields(h: string, x: string, a: string, y: string, b: string, z: string, t: string)
    ensures var s := h + x + a + y + b + z + t;
      && OccursAt(s, x, |h|)
      && OccursAt(s, y, |h| + |x| + |a|)
      && OccursAt(s, z, |h| + |x| + |a| + |y| + |b|)
  {
    var p1 := h + x;
    var p2 := p1 + a + y;
    var p3 := p2 + b + z;
    assert OccursAt(x, x, 0) && OccursAt(y, y, 0) && OccursAt(z, z, 0);
    OccursAtShift(h, x, x, 0);
    OccursAtExtend(p1, a + y, x, |h|);
    assert p1 + (a + y) == p2;
    OccursAtShift(p1 + a, y, y, 0);
    OccursAtExtend(p2, b + z, x, |h|);
    OccursAtExtend(p2, b + z, y, |p1 + a|);
    assert p2 + (b + z) == p3;
    OccursAtShift(p2 + b, z, z, 0);
    OccursAtExtend(p3, t, x, |h|);
    OccursAtExtend(p3, t, y, |p1 + a|);
    OccursAtExtend(p3, t, z, |p2 + b|);
  }

  /** The description as rendered: every "\n" becomes "<br>", so no line break is left. */
  function RenderedDescription(description: string): (r: string)
    ensures '\n' !in r
    ensures '\n' !in description ==> r == description
  {
    ReplaceChar(description, '\n', "<br>")
  }

  /** One cell of the grid: nothing when the image cannot be loaded, otherwise its card. A missing
      "brief" raises on `description.replace`. */
  function CellHtml(file: string, env: Backend): Outcome<Option<string>>
  {
    match env.imageAt(ImageUrl(file))
    case Raised => Raised
    case Returned(Missing) => Returned(None)
    case Returned(Loaded(image)) =>
      var (title, description) := ImageDetails(env.detailsAt(DetailsUrl(file)));
      match description
      case None => Raised
      case Some(d) => Returned(Some(ImageWithInfo(Show(image), Show(title), RenderedDescription(d))))
  }

  /** The cells of one row, column by column; the first cell that raises ends the rendering. */
  function RowView<S, C>(row: seq<S>, cell: S -> Outcome<C>): Outcome<seq<C>>
  {
    if row == [] then Returned([])
    else
      match RowView(row[..|row| - 1], cell)
      case Raised => Raised
      case Returned(cells) =>
        match cell(row[|row| - 1])
        case Raised => Raised
        case Returned(c) => Returned(cells + [c])
  }

  /** The cells of every row, row by row. */
  function GridView<S, C>(rows: seq<seq<S>>, cell: S -> Outcome<C>): Outcome<seq<seq<C>>>
  {
    if rows == [] then Returned([])
    else
      match GridView(rows[..|rows| - 1], cell)
      case Raised => Raised
      case Returned(view) =>
        match RowView(rows[|rows| - 1], cell)
        case Raised => Raised
        case Returned(cells) => Returned(view + [cells])
  }

  /** A row that renders shows cell j in column j. */
  lemma {:induction false} RowViewSpec<S, C>(row: seq<S>, cell: S -> Outcome<C>)
    requires RowView(row, cell).Returned?
    ensures |RowView(row, cell).value| == |row|
    ensures forall j :: 0 <= j < |row| ==> cell(row[j]) == Returned(RowView(row, cell).value[j])
    decreases |row|
  {
    if row != [] {
      var init := row[..|row| - 1];
      RowViewSpec(init, cell);
      var cells := RowView(init, cell).value;
      var c := cell(row[|row| - 1]).value;
      forall j | 0 <= j < |row|
        ensures cell(row[j]) == Returned(RowView(row, cell).value[j])
      {
        IndexSnoc(cells, c, j);
        if j < |init| {
          assert row[j] == init[j];
        }
      }
    }
  }

  /** A grid that renders shows row k in row k. */
  lemma {:induction false} GridViewSpec<S, C>(rows: seq<seq<S>>, cell: S -> Outcome<C>)
    requires GridView(rows, cell).Returned?
    ensures |GridView(rows, cell).value| == |rows|
    ensures forall k :: 0 <= k < |rows| ==> RowView(rows[k], cell) == Returned(GridView(rows, cell).value[k])
    decreases |rows|
  {
    if rows != [] {
      var init := rows[..|rows| - 1];
      GridViewSpec(init, cell);
      var view := GridView(init, cell).value;
      var cells := RowView(rows[|rows| - 1], cell).value;
      forall k | 0 <= k < |rows|
        ensures RowView(rows[k], cell) == Returned(GridView(rows, cell).value[k])
      {
        IndexSnoc(view, cells, k);
        if k < |init| {
          assert rows[k] == init[k];
        }
      }
    }
  }

  /** `create_image_grid(num_images_per_row)`, given the answer of /list-images. A failed listing
      shows an error and no grid; a width of 0 makes `range` raise; a negative width draws no rows. */
  function CreateImageGrid(listing: Option<ApiReply<seq<string>>>, n: int, env: Backend)
    : Outcome<seq<seq<Option<string>>>>
  {
    if RequestFailed(listing) then Returned([])
    else if n == 0 then Raised
    else if n < 0 then Returned([])
    else GridView(GridRows(listing.value.json.value, n), (file: string) => CellHtml(file, env))
  }

  /** The grid's exits: no grid after a failed listing, a `ValueError` from `range` for width 0, no
      rows for a negative width, and no rows for an empty listing. */
  lemma CreateImageGridExits(listing: Option<ApiReply<seq<string>>>, n: int, env: Backend)
    ensures RequestFailed(listing) ==> CreateImageGrid(listing, n, env) == Returned([])
    ensures !RequestFailed(listing) && n == 0 ==> CreateImageGrid(listing, n, env) == Raised
    ensures !RequestFailed(listing) && n < 0 ==> CreateImageGrid(listing, n, env) == Returned([])
    ensures !RequestFailed(listing) && n > 0 && listing.value.json.value == [] ==>
              CreateImageGrid(listing, n, env) == Returned([])
  {
    if !RequestFailed(listing) && n > 0 {
      GridRowsSpec(listing.value.json.value, n);
    }
  }

  /** `cells` shows the files from `start` on, one per column. */
  ghost predicate ShowsFrom<C>(files: seq<string>, start: int, cells: seq<C>, cell: string -> Outcome<C>)
  {
    forall j :: 0 <= j < |cells| ==> 0 <= start + j < |files| && cell(files[start + j]) == Returned(cells[j])
  }

  /** In a rendered grid, column j of row k shows the cell of file k*n + j: the rows together show
      every listed file once, in listing order, at most n to a row. */
  lemma GridShowsFiles(files: seq<string>, n: nat, env: Backend)
    requires n > 0
    requires CreateImageGrid(Some(ApiReply(200, Some(files))), n, env).Returned?
    ensures var view := CreateImageGrid(Some(ApiReply(200, Some(files))), n, env).value;
      && |view| == |GridRows(files, n)|
      && (forall k :: 0 <= k < |view| ==> |view[k]| == |GridRows(files, n)[k]| <= n)
      && (forall k :: 0 <= k < |view| ==> ShowsFrom(files, k * n, view[k], (file: string) => CellHtml(file, env)))
  {
    var cell := (file: string) => CellHtml(file, env);
    var rows := GridRows(files, n);
    GridViewSpec(rows, cell);
    var view := GridView(rows, cell).value;
    forall k | 0 <= k < |view|
      ensures |view[k]| == |rows[k]| <= n
      ensures ShowsFrom(files, k * n, view[k], cell)
    {
      GridRowCells(files, n, cell, k, view[k]);
    }
  }

  /** Row k of a rendered grid shows the files from k*n on, one per column. */
  lemma GridRowCells<C>(files: seq<string>, n: nat, cell: string -> Outcome<C>, k: nat, cells: seq<C>)
    requires n > 0 && k < |GridRows(files, n)|
    requires RowView(GridRows(files, n)[k], cell) == Returned(cells)
    ensures |cells| == |GridRows(files, n)[k]| <= n
    ensures ShowsFrom(files, k * n, cells, cell)
  {
    var row := GridRows(files, n)[k];
    GridRowAt(files, n, k);
    RowViewSpec(row, cell);
    forall j | 0 <= j < |cells|
      ensures 0 <= k * n + j < |files| && cell(files[k * n + j]) == Returned(cells[j])
    {
      assert row[j] == files[k * n + j];
    }
  }

  // ---------------------------------------------------------------- the NVIDIA summary

  const PROMPT_HEAD := "Write a 5 line summary for the following title and summary: Title: "
  const PROMPT_MIDDLE := ". Summary: "

  /** The prompt sent for a title and a description. */
  function SummaryPrompt(title: Option<string>, description: string): string
  {
    PROMPT_HEAD + Show(title) + PROMPT_MIDDLE + description
  }

  /** The prompt carries the title (or "None") right after its fixed head, and ends with the
      description as it was before the line breaks were replaced. */
  lemma SummaryPromptFields(title: Option<string>, description: string)
    ensures var prompt := SummaryPrompt(title, description);
      && OccursAt(prompt, Show(title), |PROMPT_HEAD|)
      && OccursAt(prompt, description, |PROMPT_HEAD| + |Show(title)| + |PROMPT_MIDDLE|)
      && |prompt| == |PROMPT_HEAD| + |Show(title)| + |PROMPT_MIDDLE| + |description|
  {
    TemplateFields(PROMPT_HEAD, Show(title), PROMPT_MIDDLE, description, "", "", "");
    var s := PROMPT_HEAD + Show(title) + PROMPT_MIDDLE + description;
    assert s + "" + "" + "" == s;
  }

  /** `get_nvidia_summary`: the content of the first choice's message, or the error text when the
      request fails; a missing choice or key raises, as only `RequestException` is caught. */
  function NvidiaSummary(reply: Option<ApiReply<NvidiaJson>>): (r: Outcome<string>)
    ensures RequestFailed(reply) ==> r == Returned(SUMMARY_ERROR)
    ensures !RequestFailed(reply) ==>
              var choices := reply.value.json.value.choices;
              (r.Returned? <==> choices.Some? && |choices.value| > 0 && choices.value[0].Some?) &&
              (r.Returned? ==> r.value == choices.value[0].value)
  {
    if RequestFailed(reply) then Returned(SUMMARY_ERROR)
    else
      match reply.value.json.value.choices
      case None => Raised
      case Some(choices) =>
        if |choices| == 0 then Raised
        else
          match choices[0]
          case None => Raised
          case Some(content) => Returned(content)
  }

  // ---------------------------------------------------------------- session state

  const SELECTED_IMAGE := "selected_image"
  const SELECTED_TITLE := "selected_title"
  const SELECTED_DESCRIPTION := "selected_description"
  const NVIDIA_SUMMARY := "nvidia_summary"

  /** The page's `st.session_state`: key to value, `None` standing for Python's `None`. */
  class LandingSession {
    var session: map<string, Option<string>>

    constructor(session0: map<string, Option<string>>)
      ensures session == session0
    {
      session := session0;
    }

    /** The initialisation block: each selection key that is absent is set to `None`; keys already
        present keep their values. */
    method Initialise()
      modifies this
      ensures forall k :: k in old(session) ==> k in session && session[k] == old(session)[k]
      ensures session.Keys == old(session).Keys + {SELECTED_IMAGE, SELECTED_TITLE, SELECTED_DESCRIPTION}
      ensures forall k :: k in session && k !in old(session) ==> session[k] == None
    {
      if SELECTED_IMAGE !in session {
        session := session[SELECTED_IMAGE := None];
      }
      if SELECTED_TITLE !in session {
        session := session[SELECTED_TITLE := None];
      }
      if SELECTED_DESCRIPTION !in session {
        session := session[SELECTED_DESCRIPTION := None];
      }
    }

    /** `handle_click(image_file, title, description)`: the three selection keys take the arguments,
        then the summary is fetched and stored. When fetching it raises, the selection stays set and
        no summary is stored. Switching pages is left out. */
    method HandleClick(imageFile: string, title: Option<string>, description: string, env: Backend)
      returns (raised: bool)
      modifies this
      ensures var selected := old(session)[SELECTED_IMAGE := Some(imageFile)][SELECTED_TITLE := title]
                                          [SELECTED_DESCRIPTION := Some(description)];
        match NvidiaSummary(env.nvidiaAt(SummaryPrompt(title, description)))
        case Raised => raised && session == selected
        case Returned(s) => !raised && session == selected[NVIDIA_SUMMARY := Some(s)]
    {
      session := session[SELECTED_IMAGE := Some(imageFile)];
      session := session[SELECTED_TITLE := title];
      session := session[SELECTED_DESCRIPTION := Some(description)];
      var summary := NvidiaSummary(env.nvidiaAt(SummaryPrompt(title, description)));
      if summary.Raised? {
        return true;
      }
      session := session[NVIDIA_SUMMARY := Some(summary.value)];
      return false;
    }
  }
}
