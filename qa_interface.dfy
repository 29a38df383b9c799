/** The Q&A page: the PDF key and URL derived from the selected image, the page's session state
    (index, chat history, terminal transcript, notes) and the split of the notes into PDF sections.
    The vector index, the retrieval and the language model are oracles. */
module QaInterface {
  import opened Py
  import opened PyStr

  const S3_PDF_BASE := "https://bdia-assignment-3.s3.us-east-1.amazonaws.com/Research-Foundation/"
  const TEMP_PDF_PATH := "streamlit/pages/temp_document.pdf"
  const NOTE_SEPARATOR := "\n\n---\n\n"

  /** What `create_index` returned; its contents belong to the vector store. */
  datatype VectorIndex = VectorIndex(id: nat)

  /** One entry of `history`: `{"role": role, "content": content}`. */
  datatype Message = Message(role: string, content: string)

  /** `selected_image.split('.')[0].split('/')[1]`. `Raised` is the `IndexError` when the part before
      the first `.` has no `/`, and the `AttributeError` when no image is selected. */
  function PdfKey(selected: Option<string>): Outcome<string>
  {
    match selected
    case None => Raised
    case Some(s) =>
      var parts := Split(Stem(s), "/");
      if |parts| < 2 then Raised else Returned(parts[1])
  }

  /** The part of the selected image key before its first `.` */
  function Stem(s: string): (stem: string)
    ensures |stem| <= |s| && stem == s[..|stem|] && '.' !in stem
    ensures stem == s || s[|stem|] == '.'
  {
    SplitCharFirst(s, '.');
    Split(s, ".")[0]
  }

  /** There is no key exactly when the stem has no `/`. */
  lemma PdfKeyRaised(s: string)
    ensures PdfKey(Some(s)).Raised? <==> '/' !in Stem(s)
  {
    SplitCharCount(Stem(s), '/');
  }

  /** The key is the text of the stem between its first `/` and the next `/` (or the stem's end). */
  lemma PdfKeyShape(s: string) returns (dir: string, rest: string)
    requires PdfKey(Some(s)).Returned?
    ensures var k := PdfKey(Some(s)).value;
      && '/' !in k && '.' !in k && '/' !in dir
      && Stem(s) == dir + "/" + k + rest
      && (rest == [] || rest[0] == '/')
  {
    SplitCharCount(Stem(s), '/');
    dir, rest := SecondPiece(Stem(s));
    var k := PdfKey(Some(s)).value;
    forall m | 0 <= m < |k| ensures k[m] != '.' {
      assert k[m] == Stem(s)[|dir| + 1 + m];
    }
  }

  /** The second `/`-piece of a text with a `/` sits right after the first `/`. */
  lemma SecondPiece(stem: string) returns (dir: string, rest: string)
    requires '/' in stem
    ensures |Split(stem, "/")| >= 2
    ensures var k := Split(stem, "/")[1];
      && '/' !in k && '/' !in dir
      && stem == dir + "/" + k + rest
      && (rest == [] || rest[0] == '/')
  {
    var after;
    dir, after := FirstSlash(stem);
    var k;
    k, rest := FirstPiece(after);
    PiecesAssemble(stem, dir, after, k, rest, Split(stem, "/"), Split(after, "/"));
  }

  /** Puts the first slash and the first piece after it back together: the second element of the
      split is that piece. */
  lemma PiecesAssemble(stem: string, dir: string, after: string, k: string, rest: string,
                       parts: seq<string>, more: seq<string>)
    requires stem == dir + "/" + after && after == k + rest
    requires parts == [dir] + more && |more| >= 1 && more[0] == k
    ensures |parts| >= 2 && parts[1] == k && stem == dir + "/" + k + rest
  {
  }

  /** A text with a `/` is its first piece, the `/` and the rest, and splits accordingly. */
  lemma FirstSlash(stem: string) returns (dir: string, after: string)
    requires '/' in stem
    ensures '/' !in dir && stem == dir + "/" + after
    ensures Split(stem, "/") == [dir] + Split(after, "/")
  {
    SplitCharFirst(stem, '/');
    dir := Split(stem, "/")[0];
    after := stem[|dir| + 1..];
    assert stem == dir + "/" + after;
    SplitCharCons(dir, '/', after);
  }

  /** The first `/`-piece of a text runs up to its first `/`, or to its end. */
  lemma FirstPiece(after: string) returns (k: string, rest: string)
    ensures k == Split(after, "/")[0] && '/' !in k && after == k + rest
    ensures rest == [] || rest[0] == '/'
  {
    SplitCharFirst(after, '/');
    k := Split(after, "/")[0];
    rest := after[|k|..];
    assert after == k + rest;
  }

  /** An image key of the form `dir/stem.ext` with plain `dir` and `stem` gives `stem`; this is how
      "test/abc.png" gives "abc". */
  lemma PdfKeyOfImageKey(dir: string, stem: string, ext: string)
    requires '/' !in dir && '.' !in dir && '/' !in stem && '.' !in stem
    ensures PdfKey(Some(dir + "/" + stem + "." + ext)) == Returned(stem)
  {
    var first := dir + "/" + stem;
    assert '.' !in first;
    SplitCharCons(first, '.', ext);
    SplitCharCons(dir, '/', stem);
    SplitCharCount(stem, '/');
  }

  lemma FetchExample()
    ensures PdfKey(Some("test/abc.png")) == Returned("abc")
  {
    assert "test/abc.png" == "test" + "/" + "abc" + "." + "png";
    PdfKeyOfImageKey("test", "abc", "png");
  }

  /** The URL the "Fetch Document" button downloads. */
  function PdfUrl(key: string): (url: string)
    ensures url == S3_PDF_BASE + key + ".pdf"
    ensures EndsWith(url, ".pdf")
  {
    S3_PDF_BASE + key + ".pdf"
  }

  /** `download_pdf(url)`, with `http(url)` the status the server answers (`None`: `requests.get` raised)
      and `writeOk` whether opening and writing the temp file, a path relative to the working directory,
      succeeds. On status 200 the body is written there and the temp path returned; any other status
      gives `None` without touching the file. */
  function DownloadPdf(url: string, http: string -> Option<int>, writeOk: bool): (r: Outcome<Option<string>>)
    ensures r.Raised? <==> http(url).None? || (http(url) == Some(200) && !writeOk)
    ensures r.Returned? ==> (r.value.Some? <==> http(url) == Some(200))
    ensures r.Returned? && r.value.Some? ==> r.value.value == TEMP_PDF_PATH
  {
    match http(url)
    case None => Raised
    case Some(status) =>
      if status == 200 then (if writeOk then Returned(Some(TEMP_PDF_PATH)) else Raised)
      else Returned(None)
  }

  /** `f"{message['role'].capitalize()}: {message['content']}\n"` */
  function RenderLine(m: Message): string
  {
    Capitalize(m.role) + ": " + m.content + "\n"
  }

  /** What rendering `history` appends to `terminal_output`, one line per message in order. */
  function Transcript(ms: seq<Message>): (r: string)
  {
    if ms == [] then "" else Transcript(ms[..|ms| - 1]) + RenderLine(ms[|ms| - 1])
  }

  lemma {:induction false} TranscriptAppend(a: seq<Message>, b: seq<Message>)
    ensures Transcript(a + b) == Transcript(a) + Transcript(b)
    decreases |b|
  {
    if b == [] {
      assert a + b == a;
    } else {
      var b' := b[..|b| - 1];
      var m := b[|b| - 1];
      assert b == b' + [m];
      assert a + b == (a + b') + [m];
      TranscriptAppend(a, b');
      TranscriptLast(a + b, a + b', m);
      TranscriptLast(b, b', m);
      SeqAssoc(Transcript(a), Transcript(b'), RenderLine(m));
    }
  }

  /** The transcript of messages ending in `m` ends in `m`'s line. */
  lemma TranscriptLast(ms: seq<Message>, init: seq<Message>, m: Message)
    requires ms == init + [m]
    ensures Transcript(ms) == Transcript(init) + RenderLine(m)
  {
    assert ms[..|ms| - 1] == init;
  }

  lemma TranscriptSnoc(ms: seq<Message>, i: nat)
    requires i < |ms|
    ensures Transcript(ms[..i + 1]) == Transcript(ms[..i]) + RenderLine(ms[i])
  {
    assert ms[..i + 1][..i] == ms[..i];
  }

  /** The two roles print as "User" and "Assistant". */
  lemma CapitalizedRoles()
    ensures Capitalize("user") == "User"
    ensures Capitalize("assistant") == "Assistant"
  {
  }

  /** A rendered turn reads "User: q" then "Assistant: r": the same text the query handler appended,
      minus its duplicated user line. */
  lemma TurnTranscript(q: string, r: string)
    ensures Transcript([Message("user", q), Message("assistant", r)])
         == "User: " + q + "\n" + "Assistant: " + r + "\n"
  {
    CapitalizedRoles();
    var u := Message("user", q);
    var a := Message("assistant", r);
    assert [u, a][..1] == [u];
    assert [u][..0] == [];
    assert Transcript([u]) == RenderLine(u);
    assert RenderLine(u) == "User: " + q + "\n";
    assert RenderLine(a) == "Assistant: " + r + "\n";
  }

  /** `"".join(tokens)` built token by token, as the streaming loop does. */
  lemma JoinEmptySnoc(ts: seq<string>, t: string)
    ensures Join("", ts + [t]) == Join("", ts) + t
  {
    if |ts| == 0 {
      assert ts + [t] == [t];
    } else if |ts| == 1 {
      assert ts + [t] == [ts[0]] + [t];
      JoinCons("", ts[0], [t]);
    } else {
      assert ts + [t] == [ts[0]] + (ts[1..] + [t]);
      assert ts == [ts[0]] + ts[1..];
      JoinCons("", ts[0], ts[1..] + [t]);
      JoinCons("", ts[0], ts[1..]);
      JoinEmptySnoc(ts[1..], t);
    }
  }

  /** `len(notes.split(SEP)) + 1 if notes else 1`: the number "Add to Notes" gives the next note. */
  function NoteNumber(notes: string): (n: nat)
    ensures (n == 1) <==> notes == ""
  {
    if notes != "" then |Split(notes, NOTE_SEPARATOR)| + 1 else 1
  }

  /** The first line of note number `n`. */
  function NoteHeader(n: nat): string
  {
    "Query " + NatToString(n) + ":"
  }

  /** Note number `n` without its separator: the header, a blank line and the stripped transcript. */
  function Piece(n: nat, terminal: string): string
  {
    NoteHeader(n) + "\n\n" + Strip(terminal)
  }

  /** The text "Add to Notes" appends. */
  function NewNote(n: nat, terminal: string): (note: string)
    ensures note == "Query " + NatToString(n) + ":\n\n" + Strip(terminal) + NOTE_SEPARATOR
  {
    Piece(n, terminal) + NOTE_SEPARATOR
  }

  /** The notes after pressing "Add to Notes" once per terminal output of `outputs`, from empty notes. */
  function NotesAfter(outputs: seq<string>): string
  {
    if outputs == [] then ""
    else
      var before := NotesAfter(outputs[..|outputs| - 1]);
      before + NewNote(NoteNumber(before), outputs[|outputs| - 1])
  }

  /** A note whose only separator is the one that ends it. */
  predicate SeparatedAtEnd(note: string)
  {
    |note| >= |NOTE_SEPARATOR| && FindFrom(note, NOTE_SEPARATOR, 0) == Some(|note| - |NOTE_SEPARATOR|)
  }

  /** A terminal output that can sit in a note without adding a separator of its own: its stripped
      text, between the blank lines that surround it there, does not hold "\n\n---\n\n". Since the
      text is stripped, this fails exactly when it holds the separator, starts with "---\n\n", ends
      with "\n\n---" or is "---" itself. */
  predicate SeparatorFree(terminal: string)
  {
    !Contains("\n\n" + Strip(terminal) + "\n\n", NOTE_SEPARATOR)
  }

  lemma FindFromUnique(s: string, sep: string, i: nat)
    requires |sep| > 0 && OccursAt(s, sep, i)
    requires forall j: nat :: j < i ==> !OccursAt(s, sep, j)
    ensures FindFrom(s, sep, 0) == Some(i)
  {
  }

  /** The first occurrence in `a` is still the first in `a + b`. */
  lemma FindPrefixStable(a: string, b: string, sep: string)
    requires |sep| > 0 && FindFrom(a, sep, 0).Some?
    ensures FindFrom(a + b, sep, 0) == FindFrom(a, sep, 0)
  {
    var i := FindFrom(a, sep, 0).value;
    assert (a + b)[i..i + |sep|] == a[i..i + |sep|];
    forall j: nat | j < i
      ensures !OccursAt(a + b, sep, j)
    {
      OccursAtPrefix(a, b, sep, j);
    }
    FindFromUnique(a + b, sep, i);
  }

  /** Splitting text that starts with a note separated only at its end peels that note off. */
  lemma SplitAfterNote(note: string, y: string)
    requires SeparatedAtEnd(note)
    ensures Split(note + y, NOTE_SEPARATOR)
         == [note[..|note| - |NOTE_SEPARATOR|]] + Split(y, NOTE_SEPARATOR)
  {
    var i := |note| - |NOTE_SEPARATOR|;
    FindPrefixStable(note, y, NOTE_SEPARATOR);
    assert (note + y)[..i] == note[..i];
    assert (note + y)[i + |NOTE_SEPARATOR|..] == y;
  }

  /** A note laid out as a one-line header, a body `c` framed by blank lines, then "---\n\n" has no
      separator starting before the one at its end, unless `c` holds one. */
  lemma NoEarlySeparator(head: string, c: string, j: nat)
    requires '\n' !in head
    requires |c| >= 4 && c[|c| - 2] == '\n' && c[|c| - 1] == '\n'
    requires !Contains(c, NOTE_SEPARATOR)
    requires j < |head| + |c| - 2
    ensures !OccursAt(head + c + "---\n\n", NOTE_SEPARATOR, j)
  {
    var s := head + c + "---\n\n";
    var q := |head| + |c| - 2;
    if j < |head| {
      assert s[j] == head[j];
    } else if j + 7 <= |head| + |c| {
      assert s[j..j + 7] == c[j - |head|..j - |head| + 7];
      assert !OccursAt(c, NOTE_SEPARATOR, j - |head|);
    } else {
      var k := if j + 2 >= q then j + 2 else q;
      assert s[k] == '\n';
      assert 2 <= k - j <= 4;
      assert NOTE_SEPARATOR[2] == '-' && NOTE_SEPARATOR[3] == '-' && NOTE_SEPARATOR[4] == '-';
    }
  }

  /** Note number `n` laid out as its header, the body framed by blank lines, then "---\n\n". */
  lemma NoteLayout(n: nat, terminal: string)
    ensures NewNote(n, terminal) == NoteHeader(n) + ("\n\n" + Strip(terminal) + "\n\n") + "---\n\n"
  {
    assert NewNote(n, terminal) == NoteHeader(n) + "\n\n" + Strip(terminal) + NOTE_SEPARATOR;
    LayoutRegroup(NoteHeader(n), Strip(terminal));
  }

  lemma LayoutRegroup(h: string, b: string)
    ensures h + "\n\n" + b + NOTE_SEPARATOR == h + ("\n\n" + b + "\n\n") + "---\n\n"
  {
    var nl: string := "\n\n";
    var tail: string := "---\n\n";
    assert NOTE_SEPARATOR == nl + tail;
    SeqAssoc(h + nl + b, nl, tail);
    SeqAssoc(h, nl + b, nl);
    SeqAssoc(h, nl, b);
  }

  /** A note laid out as a one-line header, a body `c` framed by blank lines, then "---\n\n" is
      separated only at its end exactly when `c` holds no separator. */
  lemma LayoutSeparatedAtEnd(head: string, c: string)
    requires '\n' !in head
    requires |c| >= 4 && c[|c| - 2] == '\n' && c[|c| - 1] == '\n'
    ensures SeparatedAtEnd(head + c + "---\n\n") <==> !Contains(c, NOTE_SEPARATOR)
  {
    if Contains(c, NOTE_SEPARATOR) {
      LayoutEarlySeparator(head, c);
    } else {
      LayoutSeparatorAtEnd(head, c);
    }
  }

  lemma LayoutSeparatorAtEnd(head: string, c: string)
    requires '\n' !in head
    requires |c| >= 4 && c[|c| - 2] == '\n' && c[|c| - 1] == '\n'
    requires !Contains(c, NOTE_SEPARATOR)
    ensures SeparatedAtEnd(head + c + "---\n\n")
  {
    var note := head + c + "---\n\n";
    var p := |head| + |c| - 2;
    assert note[p..p + 7] == NOTE_SEPARATOR;
    forall j: nat | j < p
      ensures !OccursAt(note, NOTE_SEPARATOR, j)
    {
      NoEarlySeparator(head, c, j);
    }
    FindFromUnique(note, NOTE_SEPARATOR, p);
  }

  lemma LayoutEarlySeparator(head: string, c: string)
    requires |c| >= 4 && Contains(c, NOTE_SEPARATOR)
    ensures !SeparatedAtEnd(head + c + "---\n\n")
  {
    var m: nat :| m <= |c| && OccursAt(c, NOTE_SEPARATOR, m);
    OccursAtShift(head, c, NOTE_SEPARATOR, m);
    OccursAtExtend(head + c, "---\n\n", NOTE_SEPARATOR, |head| + m);
    assert |head| + m < |head| + |c| - 2;
  }

  /** A new note is separated only at its end exactly when its terminal output is separator-free. */
  lemma NewNoteSeparatedAtEnd(n: nat, terminal: string)
    ensures SeparatedAtEnd(NewNote(n, terminal)) <==> SeparatorFree(terminal)
  {
    var c := "\n\n" + Strip(terminal) + "\n\n";
    NoteLayout(n, terminal);
    NoteHeaderShape(n);
    LayoutSeparatedAtEnd(NoteHeader(n), c);
  }

  /** The pieces splitting those notes gives, before the final empty one: each note's header carries
      the number "Add to Notes" computed from the notes before it. */
  function Pieces(outputs: seq<string>): (r: seq<string>)
    ensures |r| == |outputs|
  {
    if outputs == [] then []
    else
      var init := outputs[..|outputs| - 1];
      Pieces(init) + [Piece(NoteNumber(NotesAfter(init)), outputs[|outputs| - 1])]
  }

  /** Splitting notes made from separator-free outputs gives the notes' pieces, then the pieces of what follows. */
  lemma {:induction false} NotesSplit(outputs: seq<string>, y: string)
    requires forall k :: 0 <= k < |outputs| ==> SeparatorFree(outputs[k])
    ensures Split(NotesAfter(outputs) + y, NOTE_SEPARATOR) == Pieces(outputs) + Split(y, NOTE_SEPARATOR)
    decreases |outputs|
  {
    if outputs == [] {
      assert NotesAfter(outputs) + y == y;
    } else {
      var init := outputs[..|outputs| - 1];
      var last := outputs[|outputs| - 1];
      var before := NotesAfter(init);
      var n := NoteNumber(before);
      var note := NewNote(n, last);
      NewNoteSeparatedAtEnd(n, last);
      SplitAfterNote(note, y);
      assert note[..|note| - |NOTE_SEPARATOR|] == Piece(n, last);
      assert NotesAfter(outputs) + y == before + (note + y);
      NotesSplit(init, note + y);
      assert Pieces(outputs) == Pieces(init) + [Piece(n, last)];
      Regroup(Split(NotesAfter(outputs) + y, NOTE_SEPARATOR), Pieces(init), Split(note + y, NOTE_SEPARATOR),
              Piece(n, last), Split(y, NOTE_SEPARATOR), Pieces(outputs));
    }
  }

  /** `front + ([e] + tail)` regrouped as `(front + [e]) + tail`. */
  lemma Regroup<T>(whole: seq<T>, front: seq<T>, rest: seq<T>, e: T, tail: seq<T>, grown: seq<T>)
    requires whole == front + rest && rest == [e] + tail && grown == front + [e]
    ensures whole == grown + tail
  {
  }

  /** "Add to Notes" numbers the first note 1 and the k-th note (k >= 2) k + 1, because the
      separator that ends every note leaves an empty last piece: the second note is numbered 3. */
  lemma NoteNumbering(outputs: seq<string>)
    requires forall k :: 0 <= k < |outputs| ==> SeparatorFree(outputs[k])
    ensures NoteNumber(NotesAfter(outputs)) == if outputs == [] then 1 else |outputs| + 2
  {
    if outputs != [] {
      NotesSplit(outputs, "");
      assert NotesAfter(outputs) + "" == NotesAfter(outputs);
      assert Split("", NOTE_SEPARATOR) == [""];
      assert |NotesAfter(outputs)| > 0;
    }
  }

  lemma SecondNoteIsNumberedThree(first: string)
    requires SeparatorFree(first)
    ensures NoteNumber(NewNote(1, first)) == 3
  {
    assert [first][..0] == [];
    assert NotesAfter([first]) == NewNote(1, first);
    NoteNumbering([first]);
  }

  /** One section of the notes PDF: the first line of a stripped piece in bold, then its other lines. */
  datatype Section = Section(header: string, body: seq<string>)

  function SectionOf(piece: string): Section
  {
    var lines := Split(Strip(piece), "\n");
    Section(lines[0], lines[1..])
  }

  /** A piece that is not whitespace-only. */
  predicate NotBlank(piece: string)
  {
    Strip(piece) != ""
  }

  /** The sections written for the pieces, skipping whitespace-only ones. */
  function SectionsOf(pieces: seq<string>): seq<Section>
  {
    KeepMap(pieces, NotBlank, SectionOf)
  }

  /** The sections `create_pdf_download(notes)` writes. */
  function NotesSections(notes: string): seq<Section>
  {
    SectionsOf(Split(notes, NOTE_SEPARATOR))
  }

  /** Every line a section writes, its bold header and its body lines, encodes as Latin-1. */
  predicate SectionLatin1(sec: Section)
  {
    Latin1(sec.header) && forall k :: 0 <= k < |sec.body| ==> Latin1(sec.body[k])
  }

  /** `pdf.output(dest="S").encode("latin-1")` on a PDF holding `sections`. PyFPDF keeps the text of
      core-font cells as given, so the encoding raises when any line written holds a character above
      U+00FF; the title and the date are ASCII. */
  function EncodePdf(sections: seq<Section>): Outcome<seq<Section>>
  {
    if forall k :: 0 <= k < |sections| ==> SectionLatin1(sections[k]) then Returned(sections) else Raised
  }

  /** What `create_pdf_download(notes)` yields: the sections it writes, or the encoding's exception. */
  function PdfOutput(notes: string): (r: Outcome<seq<Section>>)
    ensures r.Returned? <==>
              forall k :: 0 <= k < |NotesSections(notes)| ==> SectionLatin1(NotesSections(notes)[k])
    ensures r.Returned? ==> r.value == NotesSections(notes)
  {
    EncodePdf(NotesSections(notes))
  }

  /** `create_pdf_download(notes)`: the loop over the pieces of the notes, then the encoding of the
      finished PDF. The PDF layout and the base64 link are not modelled. */
  method CreatePdfDownload(notes: string) returns (r: Outcome<seq<Section>>)
    ensures r == PdfOutput(notes)
  {
    var queries := Split(notes, NOTE_SEPARATOR);
    var sections := [];
    var i := 0;
    while i < |queries|
      invariant 0 <= i <= |queries|
      invariant sections == SectionsOf(queries[..i])
    {
      var query := queries[i];
      assert queries[..i + 1][..i] == queries[..i];
      if Strip(query) != "" {
        var lines := Split(Strip(query), "\n");
        sections := sections + [Section(lines[0], lines[1..])];
      }
      i := i + 1;
    }
    assert queries[..i] == queries;
    r := EncodePdf(sections);
  }

  /** "Save Notes to PDF": `None` is the "No notes to save." warning on empty notes; otherwise the
      PDF is made, or its encoding raises. */
  function SaveNotes(notes: string): (r: Option<Outcome<seq<Section>>>)
    ensures r.None? <==> notes == ""
    ensures r.Some? ==> r.value == PdfOutput(notes)
  {
    if notes != "" then Some(PdfOutput(notes)) else None
  }

  /** A section encodes exactly when the stripped piece it comes from does. */
  lemma SectionLatin1Iff(piece: string)
    ensures SectionLatin1(SectionOf(piece)) <==> Latin1(Strip(piece))
  {
    var sec := SectionOf(piece);
    var lines := [sec.header] + sec.body;
    SectionOfShape(piece);
    JoinLatin1("\n", lines);
    AllOfCons(lines, Latin1);
    assert lines[0] == sec.header && lines[1..] == sec.body;
  }

  /** Notes whose text is all Latin-1 always make a PDF. */
  lemma SaveNotesLatin1(notes: string)
    requires notes != "" && Latin1(notes)
    ensures SaveNotes(notes) == Some(Returned(NotesSections(notes)))
  {
    var pieces := Split(notes, NOTE_SEPARATOR);
    assert Latin1(NOTE_SEPARATOR);
    SplitLatin1(notes, NOTE_SEPARATOR);
    assert forall k :: 0 <= k < |Split(notes, NOTE_SEPARATOR)| ==> Latin1(Split(notes, NOTE_SEPARATOR)[k]);
    assert forall k :: 0 <= k < |pieces| ==> Latin1(pieces[k]);
    forall k | 0 <= k < |pieces| && NotBlank(pieces[k])
      ensures SectionLatin1(SectionOf(pieces[k]))
    {
      StripLatin1(pieces[k]);
      SectionLatin1Iff(pieces[k]);
    }
    KeepMapSatisfies(pieces, NotBlank, SectionOf, SectionLatin1);
  }

  /** A section's header is one line, and header and body lines joined by line breaks give back the
      stripped piece. */
  lemma SectionOfShape(piece: string)
    ensures '\n' !in SectionOf(piece).header
    ensures Join("\n", [SectionOf(piece).header] + SectionOf(piece).body) == Strip(piece)
  {
    var lines := Split(Strip(piece), "\n");
    SplitCharFirst(Strip(piece), '\n');
    SplitJoin(Strip(piece), "\n");
    assert [lines[0]] + lines[1..] == lines;
  }

  /** The section note number `n` becomes: its header, then a blank line and the transcript's lines. */
  function NoteSection(n: nat, terminal: string): Section
  {
    var b := Strip(terminal);
    Section(NoteHeader(n), if b == "" then [] else [""] + Split(b, "\n"))
  }

  lemma NoteHeaderShape(n: nat)
    ensures |NoteHeader(n)| > 0 && NoteHeader(n)[0] == 'Q' && !IsSpace(NoteHeader(n)[0])
    ensures '\n' !in NoteHeader(n) && Latin1(NoteHeader(n))
    ensures !IsSpace(NoteHeader(n)[|NoteHeader(n)| - 1])
  {
    var d := NatToString(n);
    var h := NoteHeader(n);
    forall k | 0 <= k < |h| ensures h[k] != '\n' && h[k] <= '\U{FF}' {
      if k < 6 {
        assert h[k] == "Query "[k];
      } else if k < 6 + |d| {
        assert h[k] == d[k - 6];
      }
    }
  }

  /** Stripping a header, a blank line and a stripped body gives the header alone when the body is
      empty, and everything otherwise. */
  lemma StripHeaderBody(h: string, b: string)
    requires h != [] && !IsSpace(h[0]) && !IsSpace(h[|h| - 1])
    requires b == [] || (!IsSpace(b[0]) && !IsSpace(b[|b| - 1]))
    ensures Strip(h + "\n\n" + b) == if b == [] then h else h + "\n\n" + b
  {
    var p := h + "\n\n" + b;
    if b == [] {
      assert p == h + "\n\n";
      LStripNoLeadingSpace(p);
      RStripSpaceTail(h, "\n\n");
    } else {
      StripNoop(p);
    }
  }

  /** The lines of a header, a blank line and a body. */
  lemma SplitHeaderBody(h: string, b: string)
    requires '\n' !in h
    ensures Split(h + "\n\n" + b, "\n") == [h] + ([""] + Split(b, "\n"))
  {
    assert h + "\n\n" + b == h + ['\n'] + ([] + ['\n'] + b);
    SplitCharCons(h, '\n', [] + ['\n'] + b);
    SplitCharCons([], '\n', b);
  }

  /** The section of a header, a blank line and a stripped body. */
  lemma SectionOfHeaderBody(h: string, b: string)
    requires h != [] && !IsSpace(h[0]) && !IsSpace(h[|h| - 1]) && '\n' !in h
    requires b == [] || (!IsSpace(b[0]) && !IsSpace(b[|b| - 1]))
    ensures Strip(h + "\n\n" + b) != ""
    ensures SectionOf(h + "\n\n" + b) == Section(h, if b == [] then [] else [""] + Split(b, "\n"))
  {
    var p := h + "\n\n" + b;
    StripHeaderBody(h, b);
    if b == [] {
      assert Strip(p) == h;
      SplitCharAbsent(h, '\n');
      var lines := Split(h, "\n");
      assert lines == [h];
      assert SectionOf(p) == Section(lines[0], lines[1..]);
    } else {
      assert Strip(p) == p;
      SplitHeaderBody(h, b);
      var lines := Split(p, "\n");
      assert lines == [h] + ([""] + Split(b, "\n"));
      TailOfCons(h, [""] + Split(b, "\n"));
      assert SectionOf(p) == Section(lines[0], lines[1..]);
    }
  }

  /** A piece is never whitespace-only, and its section is the note's section. */
  lemma SectionOfPiece(n: nat, terminal: string)
    ensures Strip(Piece(n, terminal)) != ""
    ensures SectionOf(Piece(n, terminal)) == NoteSection(n, terminal)
  {
    NoteHeaderShape(n);
    StripEdges(terminal);
    SectionOfHeaderBody(NoteHeader(n), Strip(terminal));
  }

  /** Pieces none of which is whitespace-only give one section each, in order. */
  lemma SectionsOfNonBlank(pieces: seq<string>)
    requires forall k :: 0 <= k < |pieces| ==> Strip(pieces[k]) != ""
    ensures |SectionsOf(pieces)| == |pieces|
    ensures forall k :: 0 <= k < |pieces| ==> SectionsOf(pieces)[k] == SectionOf(pieces[k])
  {
    KeepMapAll(pieces, NotBlank, SectionOf);
  }

  /** The numbers in the pieces' headers: 1 for the first note and k + 2 for note k after it. */
  lemma {:induction false} PiecesNumbered(outputs: seq<string>)
    requires forall k :: 0 <= k < |outputs| ==> SeparatorFree(outputs[k])
    ensures forall k :: 0 <= k < |outputs| ==>
      Pieces(outputs)[k] == Piece(if k == 0 then 1 else k + 2, outputs[k])
    decreases |outputs|
  {
    if outputs != [] {
      var init := outputs[..|outputs| - 1];
      NoteNumbering(init);
      var last := Piece(if init == [] then 1 else |init| + 2, outputs[|outputs| - 1]);
      assert Pieces(outputs) == Pieces(init) + [last];
      PiecesNumbered(init);
      forall k | 0 <= k < |outputs|
        ensures Pieces(outputs)[k] == Piece(if k == 0 then 1 else k + 2, outputs[k])
      {
        IndexSnoc(Pieces(init), last, k);
        if k < |init| {
          assert init[k] == outputs[k];
        }
      }
    }
  }

  /** Saving notes made by pressing "Add to Notes" after separator-free outputs gives one section
      per note, headed "Query 1:", "Query 3:", "Query 4:", ..., holding the note's transcript. */
  lemma SavedNotes(outputs: seq<string>)
    requires forall k :: 0 <= k < |outputs| ==> SeparatorFree(outputs[k])
    ensures |NotesSections(NotesAfter(outputs))| == |outputs|
    ensures forall k :: 0 <= k < |outputs| ==>
      NotesSections(NotesAfter(outputs))[k] == NoteSection(if k == 0 then 1 else k + 2, outputs[k])
  {
    NotesSplit(outputs, "");
    assert NotesAfter(outputs) + "" == NotesAfter(outputs);
    assert Split("", NOTE_SEPARATOR) == [""];
    var ps := Pieces(outputs);
    assert Split(NotesAfter(outputs), NOTE_SEPARATOR) == ps + [""];
    assert (ps + [""])[..|ps|] == ps;
    assert NotesSections(NotesAfter(outputs)) == SectionsOf(ps);
    PiecesNumbered(outputs);
    forall k | 0 <= k < |ps|
      ensures Strip(ps[k]) != ""
      ensures SectionOf(ps[k]) == NoteSection(if k == 0 then 1 else k + 2, outputs[k])
    {
      SectionOfPiece(if k == 0 then 1 else k + 2, outputs[k]);
    }
    SectionsOfNonBlank(ps);
  }

  /** A note's section encodes exactly when its stripped transcript does. */
  lemma NoteSectionLatin1(n: nat, terminal: string)
    ensures SectionLatin1(NoteSection(n, terminal)) <==> Latin1(Strip(terminal))
  {
    var h := NoteHeader(n);
    var b := Strip(terminal);
    SectionOfPiece(n, terminal);
    SectionLatin1Iff(Piece(n, terminal));
    NoteHeaderShape(n);
    StripEdges(terminal);
    StripHeaderBody(h, b);
    Latin1Concat(h, "\n\n");
    Latin1Concat(h + "\n\n", b);
  }

  /** Saving notes made by pressing "Add to Notes" after separator-free outputs raises exactly when
      some output's stripped transcript holds a character outside Latin-1 (a curly quote, a dash, an
      emoji from the model's answer). */
  lemma SavedNotesRaise(outputs: seq<string>)
    requires |outputs| > 0
    requires forall k :: 0 <= k < |outputs| ==> SeparatorFree(outputs[k])
    ensures SaveNotes(NotesAfter(outputs)).Some?
    ensures SaveNotes(NotesAfter(outputs)).value.Raised? <==>
              exists k :: 0 <= k < |outputs| && !Latin1(Strip(outputs[k]))
  {
    var notes := NotesAfter(outputs);
    NotesAfterNonEmpty(outputs);
    var sections := NotesSections(notes);
    assert SaveNotes(notes) == Some(PdfOutput(notes));
    assert PdfOutput(notes).Raised? <==> exists k :: 0 <= k < |sections| && !SectionLatin1(sections[k]);
    SavedNotes(outputs);
    forall k | 0 <= k < |outputs|
      ensures SectionLatin1(sections[k]) <==> Latin1(Strip(outputs[k]))
    {
      NoteSectionLatin1(if k == 0 then 1 else k + 2, outputs[k]);
    }
    SomeSectionFails(sections, outputs);
  }

  lemma SomeSectionFails(sections: seq<Section>, outputs: seq<string>)
    requires |sections| == |outputs|
    requires forall k :: 0 <= k < |outputs| ==> (SectionLatin1(sections[k]) <==> Latin1(Strip(outputs[k])))
    ensures (exists k :: 0 <= k < |sections| && !SectionLatin1(sections[k])) <==>
            exists k :: 0 <= k < |outputs| && !Latin1(Strip(outputs[k]))
  {
  }

  lemma NotesAfterNonEmpty(outputs: seq<string>)
    requires |outputs| > 0
    ensures NotesAfter(outputs) != ""
  {
    var init := outputs[..|outputs| - 1];
    var note := NewNote(NoteNumber(NotesAfter(init)), outputs[|outputs| - 1]);
    assert |note| > 0;
  }

  /** The session state the page keeps in `st.session_state`. The keys the chat block initialises
      (`history`, `terminal_output`, `notes`) are present from the start. */
  class QaSession {
    var index: Option<VectorIndex>
    var history: seq<Message>
    var terminalOutput: string
    var notes: string
    var pdfKey: Option<string>

    /** Every history entry was appended by the query handler, as a user or an assistant entry. */
    ghost predicate Valid()
      reads this
    {
      forall k :: 0 <= k < |history| ==> history[k].role == "user" || history[k].role == "assistant"
    }

    /** In a valid session every message renders as a "User: " or an "Assistant: " line. */
    lemma RenderedLines()
      requires Valid()
      ensures forall k :: 0 <= k < |history| ==>
        RenderLine(history[k]) == (if history[k].role == "user" then "User: " else "Assistant: ") + history[k].content + "\n"
    {
      CapitalizedRoles();
    }

    constructor ()
      ensures Valid()
      ensures index == None && history == [] && terminalOutput == "" && notes == "" && pdfKey == None
    {
      index := None;
      history := [];
      terminalOutput := "";
      notes := "";
      pdfKey := None;
    }

    /** The "Fetch Document" button for the key derived from the selected image. `build(path)` is
        `create_index(load_multimodal_data(path))`, `None` when either raised, and `writeOk` whether the
        download's write of the temp file succeeds. Any exception is caught and leaves the state as it was. */
    method FetchDocument(key: string, http: string -> Option<int>, writeOk: bool, build: string -> Option<VectorIndex>)
      returns (fetched: bool)
      requires Valid()
      modifies this
      ensures Valid()
      ensures fetched <==> key != "" && http(PdfUrl(key)) == Some(200) && writeOk && build(TEMP_PDF_PATH).Some?
      ensures fetched ==> index == build(TEMP_PDF_PATH) && history == [] && pdfKey == Some(key)
      ensures !fetched ==> index == old(index) && history == old(history) && pdfKey == old(pdfKey)
      ensures terminalOutput == old(terminalOutput) && notes == old(notes)
    {
      fetched := false;
      if key == "" {
        return;
      }
      var download := DownloadPdf(PdfUrl(key), http, writeOk);
      if download.Raised? || download.value.None? {
        return;
      }
      var built := build(download.value.value);
      if built.None? {
        return;
      }
      index := built;
      history := [];
      pdfKey := Some(key);
      fetched := true;
    }

    /** The chat container's loop, run on every render while an index exists: each history message
        is appended to the transcript as "Role: content". */
    method RenderHistory()
      requires Valid()
      modifies this
      ensures Valid()
      ensures index == old(index) && history == old(history) && notes == old(notes) && pdfKey == old(pdfKey)
      ensures terminalOutput == if index.Some? then old(terminalOutput) + Transcript(history) else old(terminalOutput)
    {
      if index.None? {
        return;
      }
      var i := 0;
      while i < |history|
        invariant 0 <= i <= |history|
        invariant terminalOutput == old(terminalOutput) + Transcript(history[..i])
        invariant index == old(index) && history == old(history) && notes == old(notes) && pdfKey == old(pdfKey)
      {
        TranscriptSnoc(history, i);
        var line := RenderLine(history[i]);
        SeqAssoc(old(terminalOutput), Transcript(history[..i]), line);
        terminalOutput := terminalOutput + line;
        i := i + 1;
      }
      assert history[..i] == history;
    }

    /** One submitted query `q`. `stream` is the token stream of `query_engine.query(q)`; `None` when
        the query or the stream raised, which leaves the user entry and both user lines in place. */
    method SubmitQuery(q: string, stream: Option<seq<string>>) returns (answered: bool)
      requires Valid()
      modifies this
      ensures Valid()
      ensures index == old(index) && notes == old(notes) && pdfKey == old(pdfKey)
      ensures index.None? || q == "" ==>
        !answered && history == old(history) && terminalOutput == old(terminalOutput)
      ensures index.Some? && q != "" ==>
        && answered == stream.Some?
        && history == old(history) + [Message("user", q)]
             + (if answered then [Message("assistant", Join("", stream.value))] else [])
        && terminalOutput == old(terminalOutput) + "User: " + q + "\n" + "User: " + q + "\n"
             + (if answered then "Assistant: " + Join("", stream.value) + "\n" else "")
    {
      answered := false;
      if index.None? || q == "" {
        return;
      }
      history := history + [Message("user", q)];
      terminalOutput := terminalOutput + "User: " + q + "\n";
      terminalOutput := terminalOutput + "User: " + q + "\n";
      if stream.None? {
        return;
      }
      var tokens := stream.value;
      var fullResponse := "";
      var i := 0;
      while i < |tokens|
        invariant 0 <= i <= |tokens|
        invariant fullResponse == Join("", tokens[..i])
        invariant index == old(index) && notes == old(notes) && pdfKey == old(pdfKey)
        invariant history == old(history) + [Message("user", q)]
        invariant terminalOutput == old(terminalOutput) + "User: " + q + "\n" + "User: " + q + "\n"
      {
        JoinEmptySnoc(tokens[..i], tokens[i]);
        assert tokens[..i + 1] == tokens[..i] + [tokens[i]];
        fullResponse := fullResponse + tokens[i];
        i := i + 1;
      }
      assert tokens[..i] == tokens;
      history := history + [Message("assistant", fullResponse)];
      terminalOutput := terminalOutput + "Assistant: " + fullResponse + "\n";
      answered := true;
    }

    /** "Clear Chat", shown while an index exists. */
    method ClearChat()
      requires Valid()
      modifies this
      ensures Valid()
      ensures index == old(index) && notes == old(notes) && pdfKey == old(pdfKey)
      ensures index.Some? ==> history == [] && terminalOutput == ""
      ensures index.None? ==> history == old(history) && terminalOutput == old(terminalOutput)
    {
      if index.None? {
        return;
      }
      history := [];
      terminalOutput := "Chat history cleared\n";
      terminalOutput := "";
    }

    /** The first "Add to Notes" button: the numbered, stripped transcript is appended to the notes. */
    method AddToNotes()
      requires Valid()
      modifies this
      ensures Valid()
      ensures index == old(index) && history == old(history) && pdfKey == old(pdfKey)
      ensures notes == old(notes) + NewNote(NoteNumber(old(notes)), old(terminalOutput))
      ensures terminalOutput == ""
    {
      var queries := Split(notes, NOTE_SEPARATOR);
      var queryNumber := if notes != "" then |queries| + 1 else 1;
      var newNote := "Query " + NatToString(queryNumber) + ":\n\n" + Strip(terminalOutput) + NOTE_SEPARATOR;
      notes := notes + newNote;
      terminalOutput := "";
    }

    /** The second "Add to Notes" button: the raw transcript is appended. */
    method AddRawToNotes()
      requires Valid()
      modifies this
      ensures Valid()
      ensures index == old(index) && history == old(history) && pdfKey == old(pdfKey)
      ensures notes == old(notes) + old(terminalOutput)
      ensures terminalOutput == ""
    {
      notes := notes + terminalOutput;
      terminalOutput := "";
    }

    /** "Clear Notes"; the button is disabled while the notes are empty. */
    method ClearNotes()
      requires Valid()
      modifies this
      ensures Valid()
      ensures index == old(index) && history == old(history) && pdfKey == old(pdfKey)
      ensures terminalOutput == old(terminalOutput)
      ensures notes == ""
    {
      if notes == "" {
        return;
      }
      notes := "";
    }
  }
}
