/**
 * Document dispatch: the file type is the lowercased text after the last '.', it must
 * be one of txt, pdf, docx, and the matching extractor produces the text. The parsing
 * libraries, the UTF-8 decoder and the file system are outside the model: what they
 * would produce for the given input is passed in.
 */
module DocumentProcessing {
  import opened Wrappers
  import opened Seqs
  import opened Strings

  const SupportedFormats: seq<string> := ["txt", "pdf", "docx"]

  const FileNotFound: string := "Error: File not found"
  const FilenameRequired: string := "Error: Filename required for bytes input"
  const NoTextFound: string := "Error: No text found in document"

  /** What a document parser yields: a failure (any exception), or the text of each page or paragraph. */
  datatype ParseOutcome = ParseFailed | Parts(texts: seq<string>)

  /** What reading a file as UTF-8 text yields. */
  datatype DecodeOutcome = DecodeFailed | Decoded(text: string)

  /** What each library would make of the input at hand. */
  datatype Library = Library(pdf: ParseOutcome, docx: ParseOutcome, txt: DecodeOutcome)

  /** A document given by its path, or as the uploaded bytes. */
  datatype DocSource = FromPath(path: string) | FromBytes(data: seq<bv8>)

  /** The message for a type outside the whitelist, built from the whitelist itself. */
  function UnsupportedFormat(): (msg: string)
    ensures msg == "Error: Unsupported file format. Supported: txt, pdf, docx"
  {
    "Error: Unsupported file format. Supported: " + Join(SupportedFormats, ", ")
  }

  /**
   * What the extraction loops build: each part followed by a newline, one after the
   * other. It is the parts joined by newlines, with a final newline when there are any.
   */
  function Lines(parts: seq<string>): (r: string)
    ensures r == Join(parts, "\n") + (if parts == [] then "" else "\n")
    decreases |parts|
  {
    if parts == [] then []
    else
      var init, last := parts[..|parts| - 1], parts[|parts| - 1];
      assert |parts| >= 2 ==> Join(parts, "\n") == Join(init, "\n") + "\n" + last by {
        if |parts| >= 2 {
          JoinLast(parts, "\n");
        }
      }
      Lines(init) + last + "\n"
  }

  /** The text is blank exactly when every part is. */
  lemma {:induction false} LinesHaveText(parts: seq<string>)
    ensures HasText(Lines(parts)) <==> exists k | 0 <= k < |parts| :: HasText(parts[k])
    decreases |parts|
  {
    if parts != [] {
      var init, last := parts[..|parts| - 1], parts[|parts| - 1];
      LinesHaveText(init);
      HasTextConcat(Lines(init), last);
      HasTextConcat(Lines(init) + last, "\n");
      assert IsSpace("\n"[0]);
      if exists k | 0 <= k < |init| :: HasText(init[k]) {
        var k :| 0 <= k < |init| && HasText(init[k]);
        assert parts[k] == init[k];
      }
      if exists k | 0 <= k < |parts| :: HasText(parts[k]) {
        var k :| 0 <= k < |parts| && HasText(parts[k]);
        assert k < |init| ==> init[k] == parts[k];
      }
    }
  }

  /** A concatenation holds a non-whitespace character exactly when one of its halves does. */
  lemma HasTextConcat(a: string, b: string)
    ensures HasText(a + b) <==> HasText(a) || HasText(b)
  {
    var r := a + b;
    if HasText(r) {
      var i :| 0 <= i < |r| && !IsSpace(r[i]);
      if i < |a| {
        assert r[i] == a[i];
      } else {
        assert r[i] == b[i - |a|];
      }
    }
    if HasText(a) {
      var i :| 0 <= i < |a| && !IsSpace(a[i]);
      assert r[i] == a[i];
    }
    if HasText(b) {
      var i :| 0 <= i < |b| && !IsSpace(b[i]);
      assert r[|a| + i] == b[i];
    }
  }

  /** The loop shared by the PDF and DOCX extractors: `text += part + "\n"` for each part. */
  method AppendLines(parts: seq<string>) returns (text: string)
    ensures text == Lines(parts)
    ensures HasText(text) <==> exists k | 0 <= k < |parts| :: HasText(parts[k])
  {
    text := "";
    for i := 0 to |parts|
      invariant text == Lines(parts[..i])
    {
      assert parts[..i + 1][..i] == parts[..i];
      text := text + parts[i] + "\n";
    }
    assert parts[..|parts|] == parts;
    LinesHaveText(parts);
  }

  /** extract_text_from_pdf: "" when the reader fails, else each page's text followed by a newline. */
  method ExtractTextFromPdf(pdf: ParseOutcome) returns (text: string)
    ensures pdf.ParseFailed? ==> text == ""
    ensures pdf.Parts? ==> text == Lines(pdf.texts)
  {
    match pdf
    case ParseFailed => text := "";
    case Parts(pages) => text := AppendLines(pages);
  }

  /** extract_text_from_docx: "" when the reader fails, else each paragraph's text followed by a newline. */
  method ExtractTextFromDocx(docx: ParseOutcome) returns (text: string)
    ensures docx.ParseFailed? ==> text == ""
    ensures docx.Parts? ==> text == Lines(docx.texts)
  {
    match docx
    case ParseFailed => text := "";
    case Parts(paragraphs) => text := AppendLines(paragraphs);
  }

  /** extract_text_from_txt: the decoded text, or "" when reading or decoding fails. */
  function ExtractTextFromTxt(txt: DecodeOutcome): (text: string)
    ensures txt.DecodeFailed? ==> text == ""
    ensures txt.Decoded? ==> text == txt.text
  {
    match txt
    case DecodeFailed => ""
    case Decoded(t) => t
  }

  /**
   * get_file_type: `filename.split('.')[-1].lower()`, the lowercased text after the last
   * '.', or the whole lowercased name when it has no '.'.
   */
  function GetFileType(filename: string): (ext: string)
    ensures '.' !in ext
    ensures |ext| <= |filename| && ext == Lower(filename[|filename| - |ext|..])
    ensures |ext| < |filename| ==> filename[|filename| - |ext| - 1] == '.'
  {
    var parts := SplitOn(filename, '.');
    LastPiece(filename, '.');
    var last := parts[|parts| - 1];
    assert '.' !in last;
    Lower(last)
  }

  /** The name whose extension decides the format: the path itself, or the filename given with the bytes. */
  function NameOf(source: DocSource, filename: Option<string>): string {
    match source
    case FromPath(path) => path
    case FromBytes(_) => filename.GetOr("")
  }

  /** The input gets past the existence and filename checks. */
  predicate Admitted(source: DocSource, filename: Option<string>, pathExists: bool) {
    match source
    case FromPath(_) => pathExists
    case FromBytes(_) => filename.Some? && filename.value != ""
  }

  /**
   * The text if stripping leaves something, else the no-text error. What `strip()`
   * leaves is empty exactly when the text has no non-whitespace character (`Strip`).
   */
  function TextOrError(text: string): (r: string)
    ensures HasText(r)
    ensures HasText(text) ==> r == text
    ensures !HasText(text) ==> r == NoTextFound
  {
    if HasText(text) then text else assert NoTextFound[0] == 'E'; NoTextFound
  }

  /** What the extractor for a supported type yields. */
  function Extracted(fileType: string, lib: Library): string {
    if fileType == "pdf" then (if lib.pdf.Parts? then Lines(lib.pdf.texts) else "")
    else if fileType == "docx" then (if lib.docx.Parts? then Lines(lib.docx.texts) else "")
    else ExtractTextFromTxt(lib.txt)
  }

  /** The result process_document returns: whatever the input, non-blank text or an error message. */
  function DocumentOutcome(source: DocSource, filename: Option<string>, pathExists: bool, lib: Library): (r: string)
    ensures HasText(r)
  {
    if source.FromPath? && !pathExists then assert FileNotFound[0] == 'E'; FileNotFound
    else if source.FromBytes? && (filename.None? || filename.value == "") then
      assert FilenameRequired[0] == 'E'; FilenameRequired
    else
      var fileType := GetFileType(NameOf(source, filename));
      if fileType !in SupportedFormats then assert UnsupportedFormat()[0] == 'E'; UnsupportedFormat()
      else TextOrError(Extracted(fileType, lib))
  }

  /** The three rejections, each with its own message. */
  lemma OutcomeErrors(source: DocSource, filename: Option<string>, pathExists: bool, lib: Library)
    ensures source.FromPath? && !pathExists ==> DocumentOutcome(source, filename, pathExists, lib) == FileNotFound
    ensures source.FromBytes? && (filename.None? || filename == Some("")) ==>
      DocumentOutcome(source, filename, pathExists, lib) == FilenameRequired
    ensures Admitted(source, filename, pathExists) && GetFileType(NameOf(source, filename)) !in SupportedFormats ==>
      DocumentOutcome(source, filename, pathExists, lib) == "Error: Unsupported file format. Supported: txt, pdf, docx"
  {
  }

  /** A supported type goes to its own extractor and to no other. */
  lemma OutcomeDispatch(source: DocSource, filename: Option<string>, pathExists: bool, lib: Library)
    requires Admitted(source, filename, pathExists)
    ensures GetFileType(NameOf(source, filename)) == "pdf" ==>
      DocumentOutcome(source, filename, pathExists, lib) == TextOrError(if lib.pdf.Parts? then Lines(lib.pdf.texts) else "")
    ensures GetFileType(NameOf(source, filename)) == "docx" ==>
      DocumentOutcome(source, filename, pathExists, lib) == TextOrError(if lib.docx.Parts? then Lines(lib.docx.texts) else "")
    ensures GetFileType(NameOf(source, filename)) == "txt" ==>
      DocumentOutcome(source, filename, pathExists, lib) == TextOrError(ExtractTextFromTxt(lib.txt))
  {
  }

  /** A PDF whose pages are all blank is reported as holding no text. */
  lemma BlankPdfHasNoText(path: string, pages: seq<string>, lib: Library)
    requires GetFileType(path) == "pdf" && lib.pdf == Parts(pages)
    requires forall k | 0 <= k < |pages| :: !HasText(pages[k])
    ensures DocumentOutcome(FromPath(path), None, true, lib) == NoTextFound
  {
    LinesHaveText(pages);
  }

  /** The branch of process_document that calls the extractor matching a supported type. */
  method ExtractSupported(fileType: string, lib: Library) returns (text: string)
    requires fileType in SupportedFormats
    ensures text == Extracted(fileType, lib)
  {
    if fileType == "pdf" {
      text := ExtractTextFromPdf(lib.pdf);
    } else if fileType == "docx" {
      text := ExtractTextFromDocx(lib.docx);
    } else {
      text := ExtractTextFromTxt(lib.txt);
    }
  }

  /**
   * process_document: the existence and filename checks, the whitelist of types, then
   * the matching extractor, whose blank result is replaced by the no-text error.
   */
  method ProcessDocument(source: DocSource, filename: Option<string>, pathExists: bool, lib: Library)
    returns (r: string)
    ensures r == DocumentOutcome(source, filename, pathExists, lib)
  {
    if source.FromPath? && !pathExists {
      return FileNotFound;
    }
    if source.FromBytes? && (filename.None? || filename.value == "") {
      return FilenameRequired;
    }
    var fileType := GetFileType(NameOf(source, filename));
    if fileType !in SupportedFormats {
      return UnsupportedFormat();
    }
    var text := ExtractSupported(fileType, lib);
    r := TextOrError(text);
  }
}
