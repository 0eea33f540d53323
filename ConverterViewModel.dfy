/** PdfConverterViewModel (PDFConverterViewModel.kt): the six conversions
    (extract the text, derive the output, save it under `base` plus a fixed
    extension), the HTML document built around the escaped text, and the
    split and merge progress flags. */
module ConverterViewModel {
  import opened Common
  import opened Text
  import opened Indent
  import opened PdfUtil

  // ---------------------------------------------------------------- converters

  /** The six conversions the view model offers. */
  datatype Converter = TextConverter | WordConverter | PptConverter | RtfConverter | DocConverter | HtmlConverter

  /** The extension each `convertPdfToX` appends to the file name. */
  function Extension(c: Converter): (ext: string)
    ensures |ext| >= 4 && ext[0] == '.'
  {
    match c
    case TextConverter => ".txt"
    case WordConverter => ".docx"
    case PptConverter => ".pptx"
    case RtfConverter => ".rtf"
    case DocConverter => ".doc"
    case HtmlConverter => ".html"
  }

  /** The name a conversion saves under: `"$fileName.ext"`. */
  function OutputName(base: string, c: Converter): (name: string)
    ensures StartsWith(name, base) && EndsWith(name, Extension(c))
    ensures |name| == |base| + |Extension(c)|
  {
    base + Extension(c)
  }

  /** Every converter has its own extension, so the output names of two
      conversions of one file differ. */
  lemma ExtensionsDistinct(c: Converter, d: Converter, base: string)
    requires c != d
    ensures Extension(c) != Extension(d)
    ensures OutputName(base, c) != OutputName(base, d)
  {
  }

  /** The MIME type of the file each conversion saves. */
  function MimeType(c: Converter): string {
    match c
    case TextConverter => TextMime
    case WordConverter => WordMime
    case PptConverter => PptMime
    case RtfConverter => RtfMime
    case DocConverter => DocMime
    case HtmlConverter => HtmlMime
  }

  /** Each format is saved under a MIME type of its own. */
  lemma MimeTypesDistinct(c: Converter, d: Converter)
    requires c != d
    ensures MimeType(c) != MimeType(d)
  {
  }

  // ---------------------------------------------------------------- escaping

  /** `text.replace("<", "&lt;").replace(">", "&gt;")`; `&` is left alone. */
  function EscapeHtml(text: string): (r: string)
    ensures '<' !in r && '>' !in r
    ensures forall x :: x in r ==> x in text || x in "&lt;gt"
  {
    ReplaceChar(ReplaceChar(text, '<', "&lt;"), '>', "&gt;")
  }

  /** The escape of one character. */
  function EscapeChar(c: char): string {
    if c == '<' then "&lt;" else if c == '>' then "&gt;" else [c]
  }

  /** Escaping character by character, in one pass. */
  function EscapeEach(text: string): string {
    if text == [] then [] else EscapeChar(text[0]) + EscapeEach(text[1..])
  }

  /** The two chained replaces escape each character independently, so they
      equal one pass, and their order does not matter. */
  lemma {:induction false} EscapeHtmlIsPerCharacter(text: string)
    ensures EscapeHtml(text) == EscapeEach(text)
    ensures EscapeHtml(text) == ReplaceChar(ReplaceChar(text, '>', "&gt;"), '<', "&lt;")
  {
    if text != [] {
      var c, t := text[0], text[1..];
      EscapeHtmlIsPerCharacter(t);
      var lt := ReplaceChar(text, '<', "&lt;");
      var lt1 := ReplaceChar(t, '<', "&lt;");
      var hd := if c == '<' then "&lt;" else [c];
      assert lt == hd + lt1;
      ReplaceCharAppend(hd, lt1, '>', "&gt;");
      ReplaceCharAbsent("&lt;", '>', "&gt;");
      assert ReplaceChar(hd, '>', "&gt;") == EscapeChar(c);
      var gt := ReplaceChar(text, '>', "&gt;");
      var gt1 := ReplaceChar(t, '>', "&gt;");
      var hd2 := if c == '>' then "&gt;" else [c];
      assert gt == hd2 + gt1;
      ReplaceCharAppend(hd2, gt1, '<', "&lt;");
      ReplaceCharAbsent("&gt;", '<', "&lt;");
      assert ReplaceChar(hd2, '<', "&lt;") == EscapeChar(c);
    }
  }

  /** Escaping distributes over `+`. */
  lemma EscapeHtmlAppend(a: string, b: string)
    ensures EscapeHtml(a + b) == EscapeHtml(a) + EscapeHtml(b)
  {
    ReplaceCharAppend(a, b, '<', "&lt;");
    ReplaceCharAppend(ReplaceChar(a, '<', "&lt;"), ReplaceChar(b, '<', "&lt;"), '>', "&gt;");
  }

  /** Turns `&lt;` and `&gt;` back into `<` and `>`. */
  function UnescapeHtml(e: string): string {
    if e == [] then []
    else if StartsWith(e, "&lt;") then "<" + UnescapeHtml(e[4..])
    else if StartsWith(e, "&gt;") then ">" + UnescapeHtml(e[4..])
    else [e[0]] + UnescapeHtml(e[1..])
  }

  /** For text without `&`, unescaping recovers the text. */
  lemma {:induction false} UnescapeEscape(text: string)
    requires '&' !in text
    ensures UnescapeHtml(EscapeHtml(text)) == text
  {
    EscapeHtmlIsPerCharacter(text);
    UnescapeEscapeEach(text);
  }

  lemma {:induction false} UnescapeEscapeEach(text: string)
    requires '&' !in text
    ensures UnescapeHtml(EscapeEach(text)) == text
  {
    if text != [] {
      var c, t := text[0], text[1..];
      var e := EscapeEach(text);
      assert e == EscapeChar(c) + EscapeEach(t);
      UnescapeEscapeEach(t);
      if c == '<' || c == '>' {
        assert e[..4] == EscapeChar(c) && e[4..] == EscapeEach(t);
      } else {
        assert e[0] == c && e[1..] == EscapeEach(t);
      }
      assert text == [c] + t;
    }
  }

  /** Because `&` is not escaped, a literal `&lt;` in the text and a `<`
      produce the same HTML. */
  lemma EscapeNotInjective()
    ensures EscapeHtml("&lt;") == EscapeHtml("<")
  {
    EscapeHtmlIsPerCharacter("&lt;");
    EscapeHtmlIsPerCharacter("<");
    assert EscapeEach("&lt;") == "&" + EscapeEach("lt;");
  }

  /** Escaping adds no line breaks and keeps a final LF. */
  lemma EscapeHtmlKeepsLines(text: string)
    ensures '\r' !in text ==> '\r' !in EscapeHtml(text)
    ensures NoLineBreaks(text) ==> NoLineBreaks(EscapeHtml(text))
    ensures EndsWith(text, "\n") ==>
      EscapeHtml(text) == EscapeHtml(text[..|text| - 1]) + "\n"
  {
    var e := EscapeHtml(text);
    if NoLineBreaks(text) {
      forall i | 0 <= i < |e| ensures !IsLineBreak(e[i]) {
        assert e[i] in e;
      }
    }
    if EndsWith(text, "\n") {
      var t := text[..|text| - 1];
      assert text == t + "\n";
      EscapeHtmlAppend(t, "\n");
      EscapeHtmlIsPerCharacter("\n");
    }
  }

  // ---------------------------------------------------------------- html document

  const Indent4 := "    "
  const Indent16 := "                "
  const Indent20 := Indent16 + Indent4

  /** The template lines without their indentation. */
  function TemplateLine(i: nat, fileName: string, payload: string): (line: string)
    requires i < 10
    ensures |line| >= 1 && line[0] == '<'
  {
    [ "<!DOCTYPE html>", "<html>", "<head>", "<meta charset=\"UTF-8\">",
      "<title>" + fileName + "</title>", "</head>", "<body>",
      "<pre>" + payload + "</pre>", "</body>", "</html>" ][i]
  }

  /** The lines indented one level deeper: `<meta>`, `<title>` and `<pre>`. */
  predicate Nested(i: nat) {
    i == 3 || i == 4 || i == 7
  }

  /** The ten lines of the HTML template, with `outer` before the top-level
      tags and `inner` before the nested ones. */
  function DocumentLines(outer: string, inner: string, fileName: string, payload: string): (ls: seq<string>)
    ensures |ls| == 10
    ensures forall i :: 0 <= i < 10 ==> ls[i] == (if Nested(i) then inner else outer) + TemplateLine(i, fileName, payload)
  {
    seq(10, i requires 0 <= i < 10 => (if Nested(i) then inner else outer) + TemplateLine(i, fileName, payload))
  }

  /** The raw string literal of convertPdfToHtml after interpolation: a line
      break, the template lines as indented in the source, a line break and
      the sixteen spaces before the closing quotes. */
  function HtmlTemplate(fileName: string, text: string): string {
    "\n" + JoinLines(DocumentLines(Indent16, Indent20, fileName, EscapeHtml(text))) + "\n" + Indent16
  }

  /** The HTML document convertPdfToHtml saves: the template, `trimIndent()`-ed. */
  function HtmlDocument(fileName: string, text: string): string {
    TrimIndent(HtmlTemplate(fileName, text))
  }

  /** The template's own characters hold no line breaks. */
  lemma TemplateLineBreaks(i: nat, fileName: string, payload: string)
    requires i < 10
    ensures '\r' !in fileName && '\r' !in payload ==> '\r' !in TemplateLine(i, fileName, payload)
    ensures NoLineBreaks(fileName) && NoLineBreaks(payload) ==> NoLineBreaks(TemplateLine(i, fileName, payload))
  {
  }

  lemma DocumentLinesNoCarriageReturn(outer: string, inner: string, fileName: string, payload: string)
    requires '\r' !in outer + inner + fileName + payload
    ensures NoCarriageReturn(JoinLines(DocumentLines(outer, inner, fileName, payload)))
  {
    var tl := DocumentLines(outer, inner, fileName, payload);
    forall i | 0 <= i < 10 ensures NoCarriageReturn(tl[i]) {
      TemplateLineBreaks(i, fileName, payload);
    }
    JoinLinesNoCarriageReturn(tl);
  }

  lemma Reassociate(j: string, p: string, q: string, r: string)
    ensures j + "\n" + (p + "\n" + q) + "\n" + r == (j + "\n" + p) + "\n" + q + "\n" + r
  {
  }

  /** When the payload ends with LF, `</pre>` is a line of its own. */
  lemma ClosingPreIsALine(outer: string, inner: string, fileName: string, body: string)
    requires '\r' !in outer + inner + fileName + body
    ensures "</pre>" in Lines(JoinLines(DocumentLines(outer, inner, fileName, body + "\n")))
  {
    var tl := DocumentLines(outer, inner, fileName, body + "\n");
    var pre := inner + "<pre>" + body;
    assert tl[7] == pre + "\n" + "</pre>";
    assert tl == tl[..7] + [tl[7]] + tl[8..];
    JoinLinesAround(tl[..7], tl[7], tl[8..]);
    var j, r := JoinLines(tl[..7]), JoinLines(tl[8..]);
    Reassociate(j, pre, "</pre>", r);
    var x := j + "\n" + pre;
    assert JoinLines(tl) == x + "\n" + "</pre>" + "\n" + r;
    forall i | 0 <= i < 7 ensures NoCarriageReturn(tl[..7][i]) {
      TemplateLineBreaks(i, fileName, body + "\n");
    }
    JoinLinesNoCarriageReturn(tl[..7]);
    LineBetweenLineFeeds(x, "</pre>", r);
  }

  /** A payload ending in LF puts `</pre>` at column 0, so `trimIndent`
      cuts nothing. */
  lemma FramedDocumentAtColumnZero(fileName: string, body: string)
    requires '\r' !in fileName && '\r' !in body
    ensures var mid := JoinLines(DocumentLines(Indent16, Indent20, fileName, body + "\n"));
      TrimIndent("\n" + mid + "\n" + Indent16) == mid
  {
    var mid := JoinLines(DocumentLines(Indent16, Indent20, fileName, body + "\n"));
    DocumentLinesNoCarriageReturn(Indent16, Indent20, fileName, body + "\n");
    ClosingPreIsALine(Indent16, Indent20, fileName, body);
    FramedAtColumnZero(mid, Indent16, "</pre>");
  }

  /** With at least one page the extracted text ends in a line feed, so the
      closing `</pre>` starts a line at column 0 and `trimIndent` cuts no
      indentation: the document keeps the template's indentation, without
      its first and last lines. */
  lemma HtmlDocumentOfMultiLineText(fileName: string, text: string)
    requires '\r' !in fileName && '\r' !in text
    requires EndsWith(text, "\n")
    ensures HtmlDocument(fileName, text)
         == JoinLines(DocumentLines(Indent16, Indent20, fileName, EscapeHtml(text)))
  {
    var front := text[..|text| - 1];
    assert '\r' !in front by {
      assert forall x :: x in front ==> x in text;
    }
    EscapeHtmlKeepsLines(text);
    EscapeHtmlKeepsLines(front);
    FramedDocumentAtColumnZero(fileName, EscapeHtml(front));
  }

  /** Every template line is indented by its sixteen or twenty spaces. */
  lemma TemplateIndents(fileName: string, payload: string)
    ensures forall i :: 0 <= i < 10 ==>
      !IsBlank(DocumentLines(Indent16, Indent20, fileName, payload)[i]) &&
      IndentWidth(DocumentLines(Indent16, Indent20, fileName, payload)[i]) == if Nested(i) then 20 else 16
  {
    var tl := DocumentLines(Indent16, Indent20, fileName, payload);
    forall i | 0 <= i < 10
      ensures !IsBlank(tl[i])
      ensures IndentWidth(tl[i]) == if Nested(i) then 20 else 16
    {
      var w := if Nested(i) then Indent20 else Indent16;
      var line := TemplateLine(i, fileName, payload);
      assert IsBlank(w);
      IndentWidthAfterBlank(w, line);
      assert tl[i][|w|] == '<';
    }
  }

  /** Cutting sixteen characters from each template line leaves the lines
      indented by nothing and by four spaces. */
  lemma TemplateCut(fileName: string, payload: string)
    ensures DropEach(DocumentLines(Indent16, Indent20, fileName, payload), 16)
         == DocumentLines("", Indent4, fileName, payload)
  {
    var tl := DocumentLines(Indent16, Indent20, fileName, payload);
    var dropped := DocumentLines("", Indent4, fileName, payload);
    forall i | 0 <= i < 10 ensures Drop(tl[i], 16) == dropped[i] {
      var line := TemplateLine(i, fileName, payload);
      if Nested(i) {
        assert tl[i] == Indent16 + (Indent4 + line);
      } else {
        assert tl[i] == Indent16 + line;
      }
    }
  }

  /** With no pages, or when `openInputStream` returned null, the text is a single
      line; every template line is then indented by at least sixteen spaces,
      and `trimIndent` removes exactly sixteen from each. */
  lemma HtmlDocumentOfSingleLineText(fileName: string, text: string)
    requires NoLineBreaks(fileName) && NoLineBreaks(text)
    ensures HtmlDocument(fileName, text)
         == JoinLines(DocumentLines("", Indent4, fileName, EscapeHtml(text)))
  {
    var e := EscapeHtml(text);
    EscapeHtmlKeepsLines(text);
    var tl := DocumentLines(Indent16, Indent20, fileName, e);
    forall i | 0 <= i < 10 ensures NoLineBreaks(tl[i]) {
      TemplateLineBreaks(i, fileName, e);
    }
    var mid := JoinLines(tl);
    DocumentLinesNoCarriageReturn(Indent16, Indent20, fileName, e);
    TrimIndentFramed(mid, Indent16);
    LinesOfJoinLines(tl);
    TemplateIndents(fileName, e);
    assert MinCommonIndent(tl) == 16;
    TemplateCut(fileName, e);
  }

  /** The HTML document of an extracted text: with at least one page the
      template keeps its indentation; with no pages, or when the file could
      not be read, sixteen spaces are cut from every line. In both cases the
      file name sits unescaped in `<title>` and the escaped text in `<pre>`. */
  lemma HtmlDocumentOfExtractedText(fileName: string, source: Option<seq<string>>)
    requires NoLineBreaks(fileName)
    requires source.Some? ==> forall i :: 0 <= i < |source.value| ==> '\r' !in source.value[i]
    ensures var text := ExtractedText(source);
      HtmlDocument(fileName, text)
      == if source.Some? && |source.value| > 0
         then JoinLines(DocumentLines(Indent16, Indent20, fileName, EscapeHtml(text)))
         else JoinLines(DocumentLines("", Indent4, fileName, EscapeHtml(text)))
  {
    var text := ExtractedText(source);
    if source.Some? {
      JoinPagesShape(source.value);
      JoinPagesLength(source.value);
      if |source.value| > 0 {
        HtmlDocumentOfMultiLineText(fileName, text);
      } else {
        HtmlDocumentOfSingleLineText(fileName, text);
      }
    } else {
      HtmlDocumentOfSingleLineText(fileName, text);
    }
  }

  // ---------------------------------------------------------------- conversions

  /** The page list of convertPdfToPpt: the text of pages 1..n, in order.
      `source` is as for ExtractTextFromPdf; when the input stream is null the
      `!!` throws a NullPointerException that nothing catches inside
      `viewModelScope`, so the app crashes; the model returns no list. */
  method PageContents(source: Option<seq<string>>) returns (contentList: Option<seq<string>>)
    ensures source.None? <==> contentList.None?
    ensures source.Some? ==> |contentList.value| == |source.value|
    ensures source.Some? ==> forall k :: 0 <= k < |source.value| ==> contentList.value[k] == source.value[k]
  {
    if source.None? {
      return None;
    }
    var pages := source.value;
    var list := [];
    var i := 1;
    while i <= |pages|
      invariant 1 <= i <= |pages| + 1
      invariant list == pages[..i - 1]
    {
      list := list + [pages[i - 1]];
      i := i + 1;
    }
    contentList := Some(list);
  }

  /** What the MediaStore gives a save function: no row (`insert` returned
      null), a row whose output stream is null, or an open stream. */
  datatype Store = InsertFailed | NoStream | Opened

  /** What is written into a saved file. */
  datatype Payload = Text(text: string) | Presentation(slides: seq<Slide>)

  /** A file in Downloads: display name, MIME type, and what was written to
      it (`None` when the output stream was null). */
  datatype Download = Download(name: string, mimeType: string, content: Option<Payload>)

  /** The text each text-based conversion passes to its save function: the
      RTF body for RTF, the HTML document for HTML and the extracted text
      itself for TXT, DOCX and DOC. What the document libraries then make of
      it is not modelled. */
  function TextPayload(c: Converter, fileName: string, text: string): (body: string)
    requires c != PptConverter
    ensures c == RtfConverter ==> body == RtfBody(text) && '\n' !in body
    ensures c == HtmlConverter ==> body == HtmlDocument(fileName, text)
    ensures c in {TextConverter, WordConverter, DocConverter} ==> body == text
  {
    match c
    case RtfConverter => RtfBody(text)
    case HtmlConverter => HtmlDocument(fileName, text)
    case _ => text
  }

  /** The display name each save function records. */
  function DisplayName(c: Converter, fileName: string): string {
    if c == HtmlConverter then HtmlDisplayName(OutputName(fileName, c)) else OutputName(fileName, c)
  }

  /** `saveHtmlToDownloads` receives a name that already ends with `.html`,
      so every conversion saves under `"$fileName" + extension`. */
  lemma DisplayNameIsOutputName(c: Converter, fileName: string)
    ensures DisplayName(c, fileName) == OutputName(fileName, c)
    ensures EndsWith(DisplayName(c, fileName), Extension(c))
  {
  }

  /** `convertPdfToX` for the six formats: read the PDF (`source`), derive
      the output and save it as `fileName` plus the format's extension.
      `store` is the MediaStore outcome and `textShape` whether the slide
      layout's first shape holds text. */
  method ConvertPdf(c: Converter, source: Option<seq<string>>, fileName: string, store: Store, textShape: bool)
    returns (saved: Option<Download>)
    ensures saved.Some? <==> store != InsertFailed && (c == PptConverter ==> source.Some?)
    ensures saved.Some? ==> saved.value.name == DisplayName(c, fileName) && saved.value.mimeType == MimeType(c)
    ensures saved.Some? ==> (saved.value.content.Some? <==> store == Opened)
    ensures saved.Some? && store == Opened && c != PptConverter ==>
      saved.value.content == Some(Text(TextPayload(c, fileName, ExtractedText(source))))
    ensures saved.Some? && store == Opened && c == PptConverter ==>
      saved.value.content.value.Presentation? &&
      |saved.value.content.value.slides| == |source.value| &&
      forall i :: 0 <= i < |source.value| ==>
        saved.value.content.value.slides[i].text == (if textShape then Some(Take(source.value[i], SlideTextLimit)) else None)
  {
    var payload: Payload;
    if c == PptConverter {
      var contentList := PageContents(source);
      if contentList.None? {
        return None;
      }
      assert contentList.value == source.value;
      var slides := SlideTexts(contentList.value, textShape);
      payload := Presentation(slides);
    } else {
      var text := ExtractTextFromPdf(source);
      payload := Text(TextPayload(c, fileName, text));
    }
    if store == InsertFailed {
      return None;
    }
    var content := if store == Opened then Some(payload) else None;
    saved := Some(Download(DisplayName(c, fileName), MimeType(c), content));
  }

  // ---------------------------------------------------------------- progress state

  /** The state flows of PdfConverterViewModel. */
  class PdfConverterViewModel {
    var splitResultFiles: seq<string>
    var isSplitting: bool
    var isMerging: bool
    var mergedPdfUri: Option<Uri>

    constructor()
      ensures splitResultFiles == [] && !isSplitting
      ensures !isMerging && mergedPdfUri.None?
    {
      splitResultFiles := [];
      isSplitting := false;
      isMerging := false;
      mergedPdfUri := None;
    }

    /** The first step of splitPdfIntoPages, before the split runs. */
    method BeginSplit()
      modifies this
      ensures isSplitting
      ensures splitResultFiles == old(splitResultFiles)
      ensures isMerging == old(isMerging) && mergedPdfUri == old(mergedPdfUri)
    {
      isSplitting := true;
    }

    /** The last step of splitPdfIntoPages: publish the names, then clear the flag. */
    method FinishSplit(resultFiles: seq<string>)
      modifies this
      ensures splitResultFiles == resultFiles && !isSplitting
      ensures isMerging == old(isMerging) && mergedPdfUri == old(mergedPdfUri)
    {
      splitResultFiles := resultFiles;
      isSplitting := false;
    }

    /** splitPdfIntoPages: `isSplitting` is raised while the pages are saved;
        afterwards the list holds exactly the names splitPdfPagesWithIText
        returned and the flag is down. The merge state is not touched. */
    method SplitPdfIntoPages(baseFileName: string, inserted: seq<bool>)
      modifies this
      ensures splitResultFiles == SplitFileNames(baseFileName, inserted)
      ensures !isSplitting
      ensures isMerging == old(isMerging) && mergedPdfUri == old(mergedPdfUri)
    {
      BeginSplit();
      assert isSplitting;
      var resultFiles := SplitPdfPagesWithIText(baseFileName, inserted);
      FinishSplit(resultFiles);
    }

    /** The first step of mergeSelectedPdfs, before the merge runs. */
    method BeginMerge()
      modifies this
      ensures isMerging
      ensures mergedPdfUri == old(mergedPdfUri)
      ensures splitResultFiles == old(splitResultFiles) && isSplitting == old(isSplitting)
    {
      isMerging := true;
    }

    /** The last step of mergeSelectedPdfs: publish the URI, then clear the flag. */
    method FinishMerge(mergedUri: Option<Uri>)
      modifies this
      ensures mergedPdfUri == mergedUri && !isMerging
      ensures splitResultFiles == old(splitResultFiles) && isSplitting == old(isSplitting)
    {
      mergedPdfUri := mergedUri;
      isMerging := false;
    }

    /** mergeSelectedPdfs: `isMerging` is raised while the documents are
        copied; afterwards `mergedPdfUri` is the URI mergePdfsWithIText
        returned (null when no output row could be created) and the flag is
        down. `copied` are the pages copied, in order. */
    method MergeSelectedPdfs(pageCounts: seq<nat>, output: Option<Uri>, streamOpened: bool)
      returns (copied: seq<PageRef>)
      modifies this
      ensures mergedPdfUri == output && !isMerging
      ensures copied == if output.Some? && streamOpened then MergedPages(pageCounts) else []
      ensures splitResultFiles == old(splitResultFiles) && isSplitting == old(isSplitting)
    {
      BeginMerge();
      assert isMerging;
      var mergedUri;
      mergedUri, copied := MergePdfsWithIText(pageCounts, output, streamOpened);
      FinishMerge(mergedUri);
    }

    /** clearSplitResult: empty list, flag down; the merge state is kept. */
    method ClearSplitResult()
      modifies this
      ensures splitResultFiles == [] && !isSplitting
      ensures isMerging == old(isMerging) && mergedPdfUri == old(mergedPdfUri)
    {
      splitResultFiles := [];
      isSplitting := false;
    }
  }
}
