/** Text extraction from a document source (`extract_text` and its
    helpers).

    The parsing libraries (PyMuPDF, python-docx, extract_msg) and the HTTP
    download are not modelled: they are the fields of `Parsers`, each
    returning what the library would deliver (the page texts, the paragraph
    texts, the subject and body, the downloaded bytes and Content-Type
    header) or `Err` for the exception it would raise. */
module DocumentProcessor {
  import opened Wrappers
  import opened Builtins

  /** What a helper is given: a path string, an in-memory byte stream
      (`BytesIO`), or any other object. */
  datatype FileArg = PathArg(path: string) | StreamArg(content: seq<bv8>) | OtherArg

  /** The response of `requests.get`: the body and the Content-Type header,
      if the server sent one. */
  datatype Download = Download(content: seq<bv8>, contentType: Option<string>)

  datatype Parsers = Parsers(
    pdfPages: FileArg -> Result<seq<string>>,
    docxParagraphs: FileArg -> Result<seq<string>>,
    msgFields: FileArg -> Result<(Option<string>, Option<string>)>,
    fetch: string -> Result<Download>)

  datatype Format = Pdf | Docx | Msg

  // ---------------------------------------------------------------------
  // PDF: the page texts in page order
  // ---------------------------------------------------------------------

  /** What `extract_text_from_pdf` returns. */
  function PdfText(file: FileArg, parsers: Parsers): Result<string>
  {
    if file.OtherArg? then Err("Invalid input for PDF extraction")
    else
      var pages :- parsers.pdfPages(file);
      Ok(Flatten(pages))
  }

  /** `extract_text_from_pdf`: opens the document and appends the text of
      each page in turn. */
  method ExtractTextFromPdf(file: FileArg, parsers: Parsers) returns (r: Result<string>)
    ensures r == PdfText(file, parsers)
  {
    if file.OtherArg? {
      return Err("Invalid input for PDF extraction");
    }
    var doc := parsers.pdfPages(file);
    if doc.Err? {
      return Err(doc.error);
    }
    var pages := doc.value;
    var text := "";
    for i := 0 to |pages|
      invariant text == Flatten(pages[..i])
    {
      assert pages[..i + 1][..i] == pages[..i];
      text := text + pages[i];
    }
    assert pages[..|pages|] == pages;
    return Ok(text);
  }

  /** Page k's text sits, unaltered, right after the text of the pages
      before it. */
  lemma PdfPageOffsets(pages: seq<string>, k: nat)
    requires k < |pages|
    ensures var before := |Flatten(pages[..k])|;
      before + |pages[k]| <= |Flatten(pages)| &&
      Flatten(pages)[before..before + |pages[k]|] == pages[k]
  {
    assert pages[..k + 1][..k] == pages[..k];
    assert pages == pages[..k + 1] + pages[k + 1..];
    FlattenAppend(pages[..k + 1], pages[k + 1..]);
  }

  // ---------------------------------------------------------------------
  // DOCX: the paragraphs joined by newlines
  // ---------------------------------------------------------------------

  /** What `extract_text_from_docx` returns. */
  function DocxText(file: FileArg, parsers: Parsers): Result<string>
  {
    if file.OtherArg? then Err("Invalid input for DOCX extraction")
    else
      var paragraphs :- parsers.docxParagraphs(file);
      Ok(Join(paragraphs, "\n"))
  }

  /** Splitting the DOCX text at newlines gives back the paragraphs, when
      there is at least one and none holds a newline itself. */
  lemma DocxParagraphsRecovered(file: FileArg, parsers: Parsers)
    requires parsers.docxParagraphs(file).Ok?
    requires var ps := parsers.docxParagraphs(file).value;
      ps != [] && forall k :: 0 <= k < |ps| ==> '\n' !in ps[k]
    ensures DocxText(file, parsers).Ok? <==> !file.OtherArg?
    ensures DocxText(file, parsers).Ok? ==>
      Split(DocxText(file, parsers).value, '\n') == parsers.docxParagraphs(file).value
  {
    SplitJoin(parsers.docxParagraphs(file).value, '\n');
  }

  // ---------------------------------------------------------------------
  // MSG: the subject and the body
  // ---------------------------------------------------------------------

  /** An f-string field: a missing value prints as "None". */
  function Show(v: Option<string>): string
  {
    match v
    case Some(s) => s
    case None => "None"
  }

  function MsgTemplate(subject: string, body: string): string
  {
    "Subject: " + subject + "\n\n" + body
  }

  /** What `extract_text_from_msg` returns. */
  function MsgText(file: FileArg, parsers: Parsers): Result<string>
  {
    var fields :- parsers.msgFields(file);
    Ok(MsgTemplate(Show(fields.0), Show(fields.1)))
  }

  /** Reads a text of the MSG layout back: the subject runs up to the first
      newline, which must start the blank line before the body. */
  function ParseMsg(text: string): Option<(string, string)>
  {
    if !("Subject: " <= text) then None
    else
      var rest := text[9..];
      var i := FirstIndexOf(rest, '\n');
      if 0 <= i && i + 1 < |rest| && rest[i + 1] == '\n' then Some((rest[..i], rest[i + 2..]))
      else None
  }

  /** Subject and body can be read back from the MSG text when the subject
      holds no newline. */
  lemma MsgRoundTrip(subject: string, body: string)
    requires '\n' !in subject
    ensures ParseMsg(MsgTemplate(subject, body)) == Some((subject, body))
  {
    var text := MsgTemplate(subject, body);
    assert text[..9] == "Subject: ";
    var rest := text[9..];
    assert rest == subject + "\n\n" + body;
    assert rest[|subject|] == '\n';
    assert forall k :: 0 <= k < |subject| ==> rest[k] == subject[k];
    assert rest[..|subject|] == subject;
    assert rest[|subject| + 2..] == body;
  }

  // ---------------------------------------------------------------------
  // Choosing the format
  // ---------------------------------------------------------------------

  /** The format of a local file, from its lowercased extension. */
  function LocalFormat(source: string): (r: Result<Format>)
  {
    var ext := Lower(SplitExt(source).1);
    if ext == ".pdf" then Ok(Pdf)
    else if ext == ".docx" then Ok(Docx)
    else if ext == ".msg" then Ok(Msg)
    else Err("Unsupported file format: " + ext)
  }

  /** The format of a download, from the URL and the Content-Type header;
      the PDF test comes first. */
  function UrlFormat(url: string, contentType: string): (r: Result<Format>)
    ensures r.Ok? ==> r.value != Msg
  {
    var u, t := Lower(url), Lower(contentType);
    if Contains(u, "pdf") || Contains(t, "pdf") then Ok(Pdf)
    else if Contains(u, "docx") || Contains(t, "word") then Ok(Docx)
    else Err("Unsupported file format from URL: " + url)
  }

  /** `extract_text_from_url`: downloads, then chooses the parser. */
  function ExtractTextFromUrl(url: string, parsers: Parsers): Result<string>
  {
    var download :- parsers.fetch(url);
    var stream := StreamArg(download.content);
    var format :- UrlFormat(url, download.contentType.GetOr(""));
    if format == Pdf then PdfText(stream, parsers) else DocxText(stream, parsers)
  }

  /** `extract_text`: a source starting with "http" is downloaded, any
      other is a local path dispatched on its extension. */
  function ExtractText(source: string, parsers: Parsers): Result<string>
  {
    if "http" <= source then ExtractTextFromUrl(source, parsers)
    else
      var format :- LocalFormat(source);
      var file := PathArg(source);
      match format
      case Pdf => PdfText(file, parsers)
      case Docx => DocxText(file, parsers)
      case Msg => MsgText(file, parsers)
  }

  // ---------------------------------------------------------------------
  // Properties of the dispatch
  // ---------------------------------------------------------------------

  /** The final component of `p` ends in `name`, in any case, and has a
      dot that can start an extension. */
  ghost predicate EndsWithExtension(p: string, name: string)
  {
    |p| >= |name| && Lower(p[|p| - |name|..]) == name && exists k :: ExtensionDot(Basename(p), k)
  }

  /** A file name whose extension is `name`, in any case, and only such a
      name, selects that name's format. */
  lemma ExtensionNamed(p: string, name: string)
    requires |name| >= 2 && name[0] == '.' && Lower(name) == name
    requires forall k :: 0 < k < |name| ==> name[k] != '.' && name[k] != '/'
    ensures Lower(SplitExt(p).1) == name <==> EndsWithExtension(p, name)
  {
    SplitExtCharacterised(p);
    var ext := SplitExt(p).1;
    assert p[|p| - |ext|..] == ext by {
      assert p == SplitExt(p).0 + ext;
    }
    if Lower(ext) == name {
      assert |ext| == |name|;
    }
    if EndsWithExtension(p, name) {
      var tail := p[|p| - |name|..];
      assert tail[0] == '.' by {
        assert LowerChar(tail[0]) == '.';
      }
      forall k | 0 < k < |name| ensures tail[k] != '.' {
        assert LowerChar(tail[k]) == name[k];
      }
      assert ext == tail;
    }
  }

  /** Local dispatch: a path selects PDF, DOCX or MSG exactly when its final
      component ends in ".pdf", ".docx" or ".msg" in any case after a
      character that is not a dot; any other path is refused, naming its
      lowercased extension. */
  lemma LocalFormatByName(p: string)
    ensures LocalFormat(p) == Ok(Pdf) <==> EndsWithExtension(p, ".pdf")
    ensures LocalFormat(p) == Ok(Docx) <==> EndsWithExtension(p, ".docx")
    ensures LocalFormat(p) == Ok(Msg) <==> EndsWithExtension(p, ".msg")
    ensures LocalFormat(p).Err? <==>
      !EndsWithExtension(p, ".pdf") && !EndsWithExtension(p, ".docx") && !EndsWithExtension(p, ".msg")
    ensures LocalFormat(p).Err? ==> LocalFormat(p).error == "Unsupported file format: " + Lower(SplitExt(p).1)
  {
    ExtensionNamed(p, ".pdf");
    ExtensionNamed(p, ".docx");
    ExtensionNamed(p, ".msg");
  }

  /** The extension is read case-insensitively: ".PDF" selects PDF. */
  lemma UpperCaseExtension()
    ensures LocalFormat("policy.PDF") == Ok(Pdf)
  {
    var p := "policy.PDF";
    LastIndexOfAt(p, '/', -1);
    LastIndexOfAt(p, '.', 6);
    assert !DotsBetween(p, 0, 6) by { assert p[0] != '.'; }
    assert SplitExt(p).1 == p[6..] == ".PDF";
    assert Lower(".PDF") == ".pdf";
  }

  /** A leading dot does not start an extension: ".pdf" alone is refused
      with an empty extension in the message. */
  lemma HiddenFileRefused()
    ensures LocalFormat("docs/.pdf") == Err("Unsupported file format: ")
  {
    var p := "docs/.pdf";
    LastIndexOfAt(p, '/', 4);
    LastIndexOfAt(p, '.', 5);
    assert DotsBetween(p, 5, 5);
    assert Lower("") == "";
  }

  /** Lowercasing twice is lowercasing once. */
  lemma LowerIdempotent(s: string)
    ensures Lower(Lower(s)) == Lower(s)
  {
  }

  /** The downloaded format depends on URL and header only up to case. */
  lemma UrlFormatIgnoresCase(url: string, contentType: string)
    ensures UrlFormat(Lower(url), Lower(contentType)).Ok? == UrlFormat(url, contentType).Ok?
    ensures UrlFormat(url, contentType).Ok? ==>
      UrlFormat(Lower(url), Lower(contentType)).value == UrlFormat(url, contentType).value
  {
    LowerIdempotent(url);
    LowerIdempotent(contentType);
  }

  /** A hint is a stretch of the raw URL or header that reads `w` once
      lowercased. */
  ghost predicate Hint(s: string, w: string)
  {
    exists i :: OccursLowered(s, w, i)
  }

  /** "pdf" in any case anywhere in the URL or the header wins over every
      DOCX hint; without it, "docx" in the URL or "word" in the header, in
      any case, selects DOCX; otherwise the download is refused, naming
      the URL. */
  lemma {:induction false} UrlFormatCases(url: string, contentType: string)
    ensures var pdf := Hint(url, "pdf") || Hint(contentType, "pdf");
      var docx := Hint(url, "docx") || Hint(contentType, "word");
      (UrlFormat(url, contentType) == Ok(Pdf) <==> pdf) &&
      (UrlFormat(url, contentType) == Ok(Docx) <==> !pdf && docx) &&
      (UrlFormat(url, contentType).Err? <==> !pdf && !docx) &&
      (UrlFormat(url, contentType).Err? ==>
        UrlFormat(url, contentType).error == "Unsupported file format from URL: " + url)
  {
    ContainsLowered(url, "pdf");
    ContainsLowered(contentType, "pdf");
    ContainsLowered(url, "docx");
    ContainsLowered(contentType, "word");
  }

  /** An upper-case hint in the header is enough. */
  lemma UpperCaseHeaderHint()
    ensures UrlFormat("https://h/file", "application/PDF") == Ok(Pdf)
  {
    var t := "application/PDF";
    assert t[12..15] == "PDF";
    assert Lower(t[12..15]) == "pdf";
    assert OccursLowered(t, "pdf", 12);
    UrlFormatCases("https://h/file", t);
  }

  /** A URL naming both formats is read as PDF. */
  lemma PdfHintWins()
    ensures UrlFormat("https://h/p.docx?as=pdf", "") == Ok(Pdf)
  {
    var u := Lower("https://h/p.docx?as=pdf");
    assert u == "https://h/p.docx?as=pdf";
    assert OccursAt(u, "pdf", 20);
  }

  /** A source starting with "http" is always downloaded: its extension
      and the MSG parser play no part, even for a local name such as
      "http_docs/policy.msg". */
  lemma UrlBranchTaken(source: string, parsers: Parsers, msg: FileArg -> Result<(Option<string>, Option<string>)>)
    requires "http" <= source
    ensures ExtractText(source, parsers) == ExtractTextFromUrl(source, parsers)
    ensures ExtractText(source, parsers) == ExtractText(source, parsers.(msgFields := msg))
  {
  }

  /** A local source is never downloaded. */
  lemma LocalBranchTaken(source: string, parsers: Parsers, fetch: string -> Result<Download>)
    requires !("http" <= source)
    ensures ExtractText(source, parsers) == ExtractText(source, parsers.(fetch := fetch))
    ensures LocalFormat(source).Err? ==> ExtractText(source, parsers) == Err(LocalFormat(source).error)
  {
  }
}
