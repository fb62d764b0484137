/**
 * FileParserService: checks an uploaded file's name and size, then splits its
 * text into memory sections. A `.txt` file is one section. A `.md` file is
 * cut at its `#` and `##` heading lines.
 */
module FileParser {
  import opened Results
  import opened GoStrings
  import opened HeadingScan

  /** The largest accepted upload, in bytes (5 MiB). */
  const MaxFileSize: int := 5 * 1024 * 1024

  /** The codes of FileUploadError. `parse_error` is declared but never produced. */
  datatype ErrorCode = InvalidType | TooLarge | EmptyFile | ParseError

  datatype UploadError = UploadError(code: ErrorCode, message: string)

  /** One memory to create: its text, its heading (or the file name) and its position. */
  datatype Section = Section(content: string, heading: string, order: nat)

  const TooLargeError := UploadError(TooLarge, "File exceeds 5MB limit")
  const InvalidTypeError := UploadError(InvalidType, "Only .txt and .md files allowed")
  const EmptyFileError := UploadError(EmptyFile, "File is empty")
  const NoContentError := UploadError(EmptyFile, "File contains no content")

  /** The name ends in `.txt` or `.md`, ignoring the case of the letters. */
  predicate HasAcceptedSuffix(filename: string) {
    EndsWithFold(filename, ".txt") || EndsWithFold(filename, ".md")
  }

  /** A string that lowers to `.txt` or `.md` is an extension: a '.' and then letters. */
  lemma LowersToExtension(tail: string, ext: string)
    requires ext == ".txt" || ext == ".md"
    requires ToLower(tail) == ext
    ensures |tail| == |ext| && tail[0] == '.'
    ensures forall k :: 0 < k < |tail| ==> tail[k] != '.' && tail[k] != '/'
  {
    assert ToLowerChar(tail[0]) == '.';
    forall k | 0 < k < |tail| ensures tail[k] != '.' && tail[k] != '/' {
      assert ToLowerChar(tail[k]) == ext[k];
    }
  }

  /** The lower-cased extension is `ext` exactly when the name ends with `ext`, ignoring case. */
  lemma LowerExtIs(filename: string, ext: string)
    requires ext == ".txt" || ext == ".md"
    ensures ToLower(Ext(filename)) == ext <==> EndsWithFold(filename, ext)
  {
    if ToLower(Ext(filename)) == ext {
      LowerExtEndsWith(filename, ext);
    }
    if EndsWithFold(filename, ext) {
      EndsWithLowerExt(filename, ext);
    }
  }

  /** A name whose lower-cased extension is `ext` ends with `ext`, ignoring case. */
  lemma LowerExtEndsWith(filename: string, ext: string)
    requires ToLower(Ext(filename)) == ext
    ensures EndsWithFold(filename, ext)
  {
    var e := Ext(filename);
    assert ToLower(filename[|filename| - |e|..]) == ext;
  }

  /** A name ending with `.txt` or `.md`, ignoring case, has that as its lower-cased extension. */
  lemma EndsWithLowerExt(filename: string, ext: string)
    requires ext == ".txt" || ext == ".md"
    requires EndsWithFold(filename, ext)
    ensures ToLower(Ext(filename)) == ext
  {
    var tail := filename[|filename| - |ext|..];
    LowersToExtension(tail, ext);
    ExtIsSuffix(filename, tail);
  }

  /**
   * ValidateFile: the size is checked before the type, so an oversized file
   * is `too_large` whatever its name; a file of at most 5 MiB passes exactly
   * when its name ends in `.txt` or `.md`.
   */
  function ValidateFile(filename: string, size: int): (r: Option<UploadError>)
    ensures size > MaxFileSize ==> r == Some(TooLargeError)
    ensures size <= MaxFileSize ==> (r.None? <==> HasAcceptedSuffix(filename))
    ensures size <= MaxFileSize && r.Some? ==> r == Some(InvalidTypeError)
  {
    LowerExtIs(filename, ".txt");
    LowerExtIs(filename, ".md");
    if size > MaxFileSize then Some(TooLargeError)
    else
      var ext := ToLower(Ext(filename));
      if ext != ".txt" && ext != ".md" then Some(InvalidTypeError)
      else None
  }

  /** GetFileType: the lower-cased extension, `.txt` or `.md`, of an accepted name. */
  function GetFileType(filename: string): (r: Result<string, UploadError>)
    ensures r.Ok? <==> HasAcceptedSuffix(filename)
    ensures r.Ok? ==> (r.value == ".txt" <==> EndsWithFold(filename, ".txt"))
    ensures r.Ok? ==> (r.value == ".md" <==> EndsWithFold(filename, ".md"))
    ensures r.Err? ==> r.error == InvalidTypeError
  {
    LowerExtIs(filename, ".txt");
    LowerExtIs(filename, ".md");
    var ext := ToLower(Ext(filename));
    if ext != ".txt" && ext != ".md" then Err(InvalidTypeError)
    else Ok(ext)
  }

  /** The two checks agree on the name: validation passes iff the size fits and the type is known. */
  lemma ValidateAgreesWithFileType(filename: string, size: int)
    ensures ValidateFile(filename, size).None? <==> size <= MaxFileSize && GetFileType(filename).Ok?
  {
  }

  /**
   * parseTxtFile: the whole trimmed text as one section headed by the file
   * name, or `empty_file` when nothing but white space is left.
   */
  function ParseTxtFile(filename: string, text: string): (r: Result<seq<Section>, UploadError>)
    ensures r.Err? <==> AllSpace(text)
    ensures r.Err? ==> r.error == EmptyFileError
    ensures r.Ok? ==> |r.value| == 1 && r.value[0].heading == filename && r.value[0].order == 0
    ensures r.Ok? ==> r.value[0].content == TrimSpace(text) && r.value[0].content != []
  {
    var trimmed := TrimSpace(text);
    if trimmed == [] then Err(EmptyFileError)
    else Ok([Section(trimmed, filename, 0)])
  }

  /**
   * Where the content of heading m begins: after the line break that ends the
   * heading line (`\n`, or `\r\n`).
   */
  function ContentStart(text: string, m: Match): nat {
    if m.end < |text| && text[m.end] == '\n' then m.end + 1
    else if m.end + 1 < |text| && text[m.end] == '\r' && text[m.end + 1] == '\n' then m.end + 2
    else m.end
  }

  /**
   * The `\r\n` case of ContentStart never applies: `$` only matches before a
   * '\n' or at the end, so a heading match is always followed by '\n' or
   * nothing (a '\r' before the '\n' ends up in the heading text).
   */
  lemma CarriageReturnBranchUnused(text: string, m: Match)
    requires ValidMatch(text, m)
    ensures ContentStart(text, m) == if m.end < |text| then m.end + 1 else m.end
  {
  }

  /** Where the content of heading i ends: at the next heading's start, or at the end of the text. */
  function ContentEnd(text: string, ms: seq<Match>, i: nat): nat
    requires i < |ms|
  {
    if i < |ms| - 1 then ms[i + 1].start else |text|
  }

  /**
   * The trimmed text under heading i. The slice is always well formed for a
   * real scan (ContentInRange); the guard only keeps this function total.
   * Whatever is left has no white space at either end.
   */
  function SectionContent(text: string, ms: seq<Match>, i: nat): (c: string)
    requires i < |ms|
    ensures c != [] ==> !IsSpace(c[0]) && !IsSpace(c[|c| - 1])
  {
    var from := ContentStart(text, ms[i]);
    var to := ContentEnd(text, ms, i);
    if from <= to <= |text| then TrimSpace(text[from..to]) else []
  }

  /** The slice taken for heading i is well formed: Go's `text[contentStart:contentEnd]` cannot panic. */
  lemma ContentInRange(text: string, ms: seq<Match>, i: nat)
    requires Scanned(text, ms) && i < |ms|
    ensures ms[i].end <= ContentStart(text, ms[i]) <= ContentEnd(text, ms, i) <= |text|
  {
    assert ValidMatch(text, ms[i]);
    if i < |ms| - 1 {
      assert ValidMatch(text, ms[i + 1]);
    }
  }

  /** Capture group 2 of a match: the heading text. */
  function HeadingText(text: string, m: Match): string {
    if m.textStart <= m.textEnd <= |text| then text[m.textStart..m.textEnd] else []
  }

  /** The content under each heading, in match order. */
  function SectionContents(text: string, ms: seq<Match>): (cs: seq<string>)
    ensures |cs| == |ms|
  {
    seq(|ms|, i requires 0 <= i < |ms| => SectionContent(text, ms, i))
  }

  /** The heading text of each match, in match order. */
  function HeadingTexts(text: string, ms: seq<Match>): (hs: seq<string>)
    ensures |hs| == |ms|
  {
    seq(|ms|, i requires 0 <= i < |ms| => HeadingText(text, ms[i]))
  }

  /**
   * The sections of the first n headings whose content is not empty, in
   * order; section i carries content `contents[i]`, heading `headings[i]`
   * and order i.
   */
  function Kept(contents: seq<string>, headings: seq<string>, n: nat): seq<Section>
    requires n <= |contents| && n <= |headings|
  {
    if n == 0 then []
    else
      var earlier := Kept(contents, headings, n - 1);
      if contents[n - 1] == [] then earlier
      else earlier + [Section(contents[n - 1], headings[n - 1], n - 1)]
  }

  /** Kept over a prefix does not look past it. */
  lemma {:induction false} KeptPrefix(contents: seq<string>, headings: seq<string>, c: string, h: string, n: nat)
    requires n <= |contents| && n <= |headings|
    ensures Kept(contents + [c], headings + [h], n) == Kept(contents, headings, n)
  {
    if n > 0 {
      KeptPrefix(contents, headings, c, h, n - 1);
    }
  }

  /** What parseMarkdownFile returns. */
  function MarkdownSections(filename: string, text: string): Result<seq<Section>, UploadError> {
    var ms := Headings(text);
    if |ms| == 0 then
      var trimmed := TrimSpace(text);
      if trimmed == [] then Err(EmptyFileError) else Ok([Section(trimmed, filename, 0)])
    else
      var sections := Kept(SectionContents(text, ms), HeadingTexts(text, ms), |ms|);
      if |sections| == 0 then Err(NoContentError) else Ok(sections)
  }

  /**
   * Every kept section is the section of a heading among the first n whose
   * content is not empty, and there are at most n of them.
   */
  lemma {:induction false} KeptAreSections(contents: seq<string>, headings: seq<string>, n: nat)
    requires n <= |contents| && n <= |headings|
    ensures |Kept(contents, headings, n)| <= n
    ensures forall j :: 0 <= j < |Kept(contents, headings, n)| ==>
              var s := Kept(contents, headings, n)[j];
              s.order < n && s == Section(contents[s.order], headings[s.order], s.order) && s.content != []
  {
    if n > 0 {
      KeptAreSections(contents, headings, n - 1);
    }
  }

  /** The kept sections are in heading order: their `order` values strictly increase. */
  lemma {:induction false} KeptIncreasing(contents: seq<string>, headings: seq<string>, n: nat)
    requires n <= |contents| && n <= |headings|
    ensures forall j, k :: 0 <= j < k < |Kept(contents, headings, n)| ==>
              Kept(contents, headings, n)[j].order < Kept(contents, headings, n)[k].order
  {
    if n > 0 {
      KeptIncreasing(contents, headings, n - 1);
      KeptAreSections(contents, headings, n - 1);
    }
  }

  /** No heading with content is dropped: its index appears among the kept sections. */
  lemma {:induction false} KeptComplete(contents: seq<string>, headings: seq<string>, n: nat, i: nat)
    requires i < n <= |contents| && n <= |headings|
    requires contents[i] != []
    ensures exists j :: 0 <= j < |Kept(contents, headings, n)| && Kept(contents, headings, n)[j].order == i
  {
    var earlier := Kept(contents, headings, n - 1);
    if i == n - 1 {
      assert Kept(contents, headings, n)[|earlier|].order == i;
    } else {
      KeptComplete(contents, headings, n - 1, i);
      var j :| 0 <= j < |earlier| && earlier[j].order == i;
      assert Kept(contents, headings, n)[j] == earlier[j];
    }
  }

  /** Nothing is kept exactly when every one of the first n contents is empty. */
  lemma {:induction false} KeptEmptyIff(contents: seq<string>, headings: seq<string>, n: nat)
    requires n <= |contents| && n <= |headings|
    ensures Kept(contents, headings, n) == [] <==> forall i :: 0 <= i < n ==> contents[i] == []
  {
    if n > 0 {
      KeptEmptyIff(contents, headings, n - 1);
    }
  }

  /** Every section of a successful markdown parse has content without surrounding white space. */
  lemma MarkdownSectionsNonEmpty(filename: string, text: string)
    ensures MarkdownSections(filename, text).Ok? ==>
              |MarkdownSections(filename, text).value| >= 1 &&
              forall j :: 0 <= j < |MarkdownSections(filename, text).value| ==>
                var c := MarkdownSections(filename, text).value[j].content;
                c != [] && !IsSpace(c[0]) && !IsSpace(c[|c| - 1])
    ensures MarkdownSections(filename, text).Err? ==> MarkdownSections(filename, text).error.code == EmptyFile
  {
    var ms := Headings(text);
    if |ms| > 0 {
      var cs := SectionContents(text, ms);
      KeptAreSections(cs, HeadingTexts(text, ms), |ms|);
    }
  }

  /** Without any `#`/`##` heading a markdown file is parsed exactly like a text file. */
  lemma MarkdownWithoutHeadingsIsText(filename: string, text: string)
    requires Headings(text) == []
    ensures MarkdownSections(filename, text) == ParseTxtFile(filename, text)
  {
  }

  /**
   * With at least one heading, the file is `empty_file`, "File contains no
   * content", exactly when every heading's content is white space.
   */
  lemma AllEmptyHeadingsRejected(filename: string, text: string)
    requires |Headings(text)| > 0
    ensures MarkdownSections(filename, text) == Err(NoContentError) <==>
              forall i :: 0 <= i < |Headings(text)| ==> SectionContents(text, Headings(text))[i] == []
  {
    var ms := Headings(text);
    KeptEmptyIff(SectionContents(text, ms), HeadingTexts(text, ms), |ms|);
  }

  /** One step of parseMarkdownFile's loop: the heading text and trimmed content of heading i. */
  method SectionAt(text: string, matches: seq<Match>, i: nat) returns (content: string, headingText: string)
    requires Scanned(text, matches) && i < |matches|
    ensures content == SectionContent(text, matches, i)
    ensures headingText == HeadingText(text, matches[i])
  {
    var heading := matches[i];
    ContentInRange(text, matches, i);
    headingText := text[heading.textStart..heading.textEnd];
    var contentStart := ContentStart(text, heading);
    var contentEnd := ContentEnd(text, matches, i);
    content := TrimSpace(text[contentStart..contentEnd]);
  }

  /**
   * The loop of parseMarkdownFile: one pass over the heading matches,
   * collecting the non-empty sections. `contents` and `headings` record
   * what each step computed.
   */
  method CollectSections(text: string, matches: seq<Match>)
    returns (sections: seq<Section>, ghost contents: seq<string>, ghost headings: seq<string>)
    requires Scanned(text, matches)
    ensures |contents| == |matches| && |headings| == |matches|
    ensures forall k :: 0 <= k < |matches| ==>
              contents[k] == SectionContent(text, matches, k) && headings[k] == HeadingText(text, matches[k])
    ensures sections == Kept(contents, headings, |matches|)
  {
    sections, contents, headings := [], [], [];
    var i := 0;
    while i < |matches|
      invariant 0 <= i <= |matches|
      invariant |contents| == i && |headings| == i
      invariant forall k :: 0 <= k < i ==>
                  contents[k] == SectionContent(text, matches, k) && headings[k] == HeadingText(text, matches[k])
      invariant sections == Kept(contents, headings, i)
    {
      var content, headingText := SectionAt(text, matches, i);
      KeptPrefix(contents, headings, content, headingText, i);
      if content != [] {
        sections := sections + [Section(content, headingText, i)];
      }
      contents, headings := contents + [content], headings + [headingText];
      i := i + 1;
    }
  }

  /** parseMarkdownFile: the whole text as one section when there is no heading, else the non-empty heading sections. */
  method ParseMarkdownFile(filename: string, text: string) returns (r: Result<seq<Section>, UploadError>)
    ensures r == MarkdownSections(filename, text)
  {
    var matches := Headings(text);
    if |matches| == 0 {
      var trimmed := TrimSpace(text);
      if trimmed == [] {
        return Err(EmptyFileError);
      }
      return Ok([Section(trimmed, filename, 0)]);
    }
    var sections, contents, headings := CollectSections(text, matches);
    assert contents == SectionContents(text, matches);
    assert headings == HeadingTexts(text, matches);
    if |sections| == 0 {
      return Err(NoContentError);
    }
    return Ok(sections);
  }

  /** What ParseFile returns: dispatch on the file type. */
  function ParsedFile(filename: string, text: string): Result<seq<Section>, UploadError> {
    match GetFileType(filename)
    case Err(e) => Err(e)
    case Ok(fileType) =>
      if fileType == ".txt" then ParseTxtFile(filename, text)
      else if fileType == ".md" then MarkdownSections(filename, text)
      else Err(InvalidTypeError)
  }

  /** ParseFile: parse by extension; any other extension is `invalid_type`. */
  method ParseFile(filename: string, text: string) returns (r: Result<seq<Section>, UploadError>)
    ensures r == ParsedFile(filename, text)
  {
    var fileType := GetFileType(filename);
    if fileType.Err? {
      return Err(fileType.error);
    }
    if fileType.value == ".txt" {
      return ParseTxtFile(filename, text);
    } else if fileType.value == ".md" {
      r := ParseMarkdownFile(filename, text);
      return;
    }
    return Err(InvalidTypeError);
  }

  /**
   * What a caller of ParseFile may rely on: success gives at least one
   * section, every section non-empty and trimmed; failure is `invalid_type`
   * (exactly when the name is not `.txt`/`.md`) or `empty_file`.
   */
  lemma ParsedFileOutcome(filename: string, text: string)
    ensures ParsedFile(filename, text).Ok? ==>
              |ParsedFile(filename, text).value| >= 1 &&
              forall j :: 0 <= j < |ParsedFile(filename, text).value| ==>
                var c := ParsedFile(filename, text).value[j].content;
                c != [] && !IsSpace(c[0]) && !IsSpace(c[|c| - 1])
    ensures ParsedFile(filename, text).Err? ==>
              (ParsedFile(filename, text).error.code == InvalidType <==> !HasAcceptedSuffix(filename))
    ensures ParsedFile(filename, text).Err? ==>
              ParsedFile(filename, text).error.code in {InvalidType, EmptyFile}
  {
    var fileType := GetFileType(filename);
    if fileType.Err? {
      assert ParsedFile(filename, text) == Err(InvalidTypeError);
    } else if fileType.value == ".txt" {
      assert ParsedFile(filename, text) == ParseTxtFile(filename, text);
    } else {
      assert ParsedFile(filename, text) == MarkdownSections(filename, text);
      MarkdownSectionsNonEmpty(filename, text);
    }
  }
}
