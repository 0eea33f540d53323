# PDF converter core, modelled in Dafny

The application (an Android app written in Kotlin) reads the text of a
PDF page by page and saves it in one of six formats: plain text, DOCX,
PPTX, RTF, DOC or HTML. It can also split a PDF into one file per page and
merge several PDFs into one. Around that it keeps a small amount of
screen and selection state. This project models the deterministic part
of that code and proves what it promises:

- `PdfUtil` (PdfUtils.kt) covers the following:
  - extracting text: each page's text followed by a blank line, or the
    sentinel `Failed to read file`;
  - the RTF body;
  - one slide per page, cut to 2000 characters;
  - the `.html` display-name rule;
  - the names of the files a split writes;
  - the order in which a merge copies pages.
- `ConverterViewModel` (PDFConverterViewModel.kt) covers:
  - the six conversions, with their extensions and MIME types;
  - `<`/`>` escaping;
  - the HTML document, including Kotlin's `trimIndent()`;
  - the PPT page list;
  - the split and merge progress flags, as a class.
- `SelectionState` (StateViewModel.kt) covers:
  - the selected PDF (URI and name);
  - the merge list, kept free of duplicates by `distinct()` and shrunk by
    `remove`;
  - all of it as a class with a validity invariant.
- `PdfPicker` (PdfPickerScreen.kt) covers:
  - the base name, `substringBeforeLast('.')` with a default;
  - the format menu and its `when` dispatch;
  - the screen's remembered variables and event handlers, as a class.
- `Text` and `Indent` hold the Kotlin library operations the core relies
  on:
  - one-character `replace`, `take` and the decimal rendering of an `Int`;
  - `lines()` and `trimIndent()`.

Reading PDFs (iText), writing documents (Apache POI) and the Android
MediaStore do not appear as code. Their outcomes are passed in as
parameters:
- a page list, or `None` when `openInputStream` returned null;
- whether an insert succeeded;
- whether an output stream was available;
- whether the slide layout's first shape holds text.

Two facts about the HTML output follow from `trimIndent()` running after
the text is interpolated:
- When the PDF has at least one page, the text ends in a line feed, so
  `</pre>` starts at column 0 and nothing is cut. The saved document keeps
  its sixteen- and twenty-space indentation.
- With no pages, or when `openInputStream` returned null, sixteen spaces are cut
  from each line.

In both cases the escaped text inside `<pre>` is kept unchanged
(`ConverterViewModel.HtmlDocumentOfExtractedText`).

`PdfElement.kt` declares a positioned element type that no code uses.
The conversions pass the whole extracted text, or the list of page
texts, to one library call.

## Model

| member | source | states |
|---|---|---|
| Text.ReplaceChar | pdfConverter-main/app/src/main/java/com/example/pdfconverter/viewmodels/PDFConverterViewModel.kt:113 | the result holds only characters of the text or of the replacement, and no `c` when the replacement has none |
| Text.ReplaceCharLength | pdfConverter-main/app/src/main/java/com/example/pdfconverter/utills/PdfUtils.kt:185 | each occurrence grows the text by the replacement's length minus one; nothing else changes length |
| Text.ReplaceCharAppend | pdfConverter-main/app/src/main/java/com/example/pdfconverter/utills/PdfUtils.kt:185 | replacing distributes over concatenation |
| Text.ReplaceCharCountOther | pdfConverter-main/app/src/main/java/com/example/pdfconverter/utills/PdfUtils.kt:185 | every character that is neither the replaced one nor in the replacement occurs as often after the rewrite as before |
| Text.RestoreReplaceChar | pdfConverter-main/app/src/main/java/com/example/pdfconverter/utills/PdfUtils.kt:185 | when the replacement's first character does not occur in the text, the replacement can be undone |
| Text.Take | pdfConverter-main/app/src/main/java/com/example/pdfconverter/utills/PdfUtils.kt:147 | `take(n)` is a prefix of length min(n, length), the whole text when it is short enough |
| Text.Decimal | pdfConverter-main/app/src/main/java/com/example/pdfconverter/utills/PdfUtils.kt:331 | the rendering of `$i` is a non-empty run of digits |
| Text.DecimalRoundTrip | pdfConverter-main/app/src/main/java/com/example/pdfconverter/utills/PdfUtils.kt:331 | reading the rendering of `$i` back gives `i` |
| Text.DecimalInjective | pdfConverter-main/app/src/main/java/com/example/pdfconverter/utills/PdfUtils.kt:331 | different page numbers render differently |
| Indent.Lines | pdfConverter-main/app/src/main/java/com/example/pdfconverter/viewmodels/PDFConverterViewModel.kt:116 | `lines()` splitting at CRLF, LF and CR always yields at least one line, and no line holds a line break |
| Indent.LinesAtSeparator | pdfConverter-main/app/src/main/java/com/example/pdfconverter/viewmodels/PDFConverterViewModel.kt:116 | a break-free prefix followed by CRLF, LF, or a CR not followed by LF is the first line, and the lines of the rest follow |
| Indent.IndentWidth | pdfConverter-main/app/src/main/java/com/example/pdfconverter/viewmodels/PDFConverterViewModel.kt:116 | the indent is the longest whitespace prefix of a line |
| Indent.MinIndent | pdfConverter-main/app/src/main/java/com/example/pdfconverter/viewmodels/PDFConverterViewModel.kt:116 | the indent `trimIndent` cuts is the least indent of a non-blank line, none when every line is blank |
| Indent.LinesSplitAtLineFeed | pdfConverter-main/app/src/main/java/com/example/pdfconverter/viewmodels/PDFConverterViewModel.kt:116 | splitting text joined by LF gives the lines of both parts |
| Indent.JoinLinesOfLines | pdfConverter-main/app/src/main/java/com/example/pdfconverter/viewmodels/PDFConverterViewModel.kt:116 | joining the lines of a text without CR with LF gives the text back |
| Indent.LinesOfJoinLines | pdfConverter-main/app/src/main/java/com/example/pdfconverter/viewmodels/PDFConverterViewModel.kt:116 | lines without line breaks, joined and split again, come back unchanged |
| Indent.TrimIndentFramed | pdfConverter-main/app/src/main/java/com/example/pdfconverter/viewmodels/PDFConverterViewModel.kt:105-116 | for a raw string opening with a line break and closing on a blank line, `trimIndent` drops both and cuts the common indent from the lines between |
| Indent.FramedAtColumnZero | pdfConverter-main/app/src/main/java/com/example/pdfconverter/viewmodels/PDFConverterViewModel.kt:105-116 | when some line starts at column 0, `trimIndent` gives the lines between the frame unchanged |
| PdfUtil.ExtractTextFromPdf | pdfConverter-main/app/src/main/java/com/example/pdfconverter/utills/PdfUtils.kt:23-44 | an unopened stream gives exactly `Failed to read file`; otherwise the text of pages 1..n, each followed by `\n\n` |
| PdfUtil.JoinPagesAppend | pdfConverter-main/app/src/main/java/com/example/pdfconverter/utills/PdfUtils.kt:36-38 | the text of two runs of pages is the concatenation of their texts |
| PdfUtil.JoinPagesAt | pdfConverter-main/app/src/main/java/com/example/pdfconverter/utills/PdfUtils.kt:36-38 | page i appears, followed by its blank line, right after the pages before it |
| PdfUtil.JoinPagesLength | pdfConverter-main/app/src/main/java/com/example/pdfconverter/utills/PdfUtils.kt:34-42 | the text is the pages plus two characters per page; no pages give the empty text |
| PdfUtil.JoinPagesShape | pdfConverter-main/app/src/main/java/com/example/pdfconverter/utills/PdfUtils.kt:36-38 | with at least one page the text ends with LF; no CR is added |
| PdfUtil.RtfBody | pdfConverter-main/app/src/main/java/com/example/pdfconverter/utills/PdfUtils.kt:185 | the RTF body starts with the fixed header (a literal backslash-n), ends with ` }` and holds no LF |
| PdfUtil.RtfBodyLength | pdfConverter-main/app/src/main/java/com/example/pdfconverter/utills/PdfUtils.kt:185 | body length = header + content + 5 per LF + 2: only line feeds are rewritten |
| PdfUtil.RtfRoundTrip | pdfConverter-main/app/src/main/java/com/example/pdfconverter/utills/PdfUtils.kt:185 | content without backslashes can be read back out of the body |
| PdfUtil.RtfNotInjective | pdfConverter-main/app/src/main/java/com/example/pdfconverter/utills/PdfUtils.kt:185 | since backslashes are not escaped, a literal `\line ` and an LF give the same body |
| PdfUtil.SlideTexts | pdfConverter-main/app/src/main/java/com/example/pdfconverter/utills/PdfUtils.kt:138-150 | one slide per page text, in order; each holds the first min(2000, length) characters, or nothing when the layout's first shape is not a text shape |
| PdfUtil.HtmlDisplayName | pdfConverter-main/app/src/main/java/com/example/pdfconverter/utills/PdfUtils.kt:249 | the display name ends with `.html`, extends the given name, and equals it exactly when it already ends with `.html` |
| PdfUtil.HtmlDisplayNameIdempotent | pdfConverter-main/app/src/main/java/com/example/pdfconverter/utills/PdfUtils.kt:249 | applying the rule twice is applying it once |
| PdfUtil.PageFileNameInjective | pdfConverter-main/app/src/main/java/com/example/pdfconverter/utills/PdfUtils.kt:331 | `${base}_page_$i.pdf` differs for different pages |
| PdfUtil.SplitFileNames | pdfConverter-main/app/src/main/java/com/example/pdfconverter/utills/PdfUtils.kt:330-356 | the list has one name per page whose row was inserted, in page order, each `${base}_page_$i.pdf` |
| PdfUtil.SavedPages | pdfConverter-main/app/src/main/java/com/example/pdfconverter/utills/PdfUtils.kt:330-356 | the recorded pages are the pages 1..n whose insert succeeded, in strictly ascending order |
| PdfUtil.SplitPdfPagesWithIText | pdfConverter-main/app/src/main/java/com/example/pdfconverter/utills/PdfUtils.kt:323-360 | the returned names are the page file names of the pages whose insert succeeded, ascending |
| PdfUtil.SplitFileNamesProperties | pdfConverter-main/app/src/main/java/com/example/pdfconverter/utills/PdfUtils.kt:330-356 | at most one name per page, no name twice, every successfully inserted page named |
| PdfUtil.MergePdfsWithIText | pdfConverter-main/app/src/main/java/com/example/pdfconverter/utills/PdfUtils.kt:271-318 | returns the inserted URI (null when the insert failed); with an open stream it copies every input's pages 1..n, inputs in order, otherwise none |
| PdfUtil.MergedPagesProperties | pdfConverter-main/app/src/main/java/com/example/pdfconverter/utills/PdfUtils.kt:289-297 | the merged pages number the sum of the page counts, are exactly the pages 1..n of each input, and come in document then page order |
| ConverterViewModel.Extension | pdfConverter-main/app/src/main/java/com/example/pdfconverter/viewmodels/PDFConverterViewModel.kt:39-119 | each conversion's extension is a dot and at least three characters |
| ConverterViewModel.OutputName | pdfConverter-main/app/src/main/java/com/example/pdfconverter/viewmodels/PDFConverterViewModel.kt:39-119 | the saved name is the base name followed by the conversion's extension |
| ConverterViewModel.ExtensionsDistinct | pdfConverter-main/app/src/main/java/com/example/pdfconverter/viewmodels/PDFConverterViewModel.kt:39-119 | different conversions of one file save under different names |
| ConverterViewModel.MimeTypesDistinct | pdfConverter-main/app/src/main/java/com/example/pdfconverter/utills/PdfUtils.kt:53-251 | the six save functions record six different MIME types (lines 53, 86, 125, 175, 211 and 251) |
| ConverterViewModel.EscapeHtml | pdfConverter-main/app/src/main/java/com/example/pdfconverter/viewmodels/PDFConverterViewModel.kt:113 | the escaped text holds no `<` or `>` and no character other than the text's and those of `&lt;`/`&gt;` |
| ConverterViewModel.EscapeHtmlIsPerCharacter | pdfConverter-main/app/src/main/java/com/example/pdfconverter/viewmodels/PDFConverterViewModel.kt:113 | the chained replaces escape each character on its own, so their order does not matter |
| ConverterViewModel.EscapeHtmlAppend | pdfConverter-main/app/src/main/java/com/example/pdfconverter/viewmodels/PDFConverterViewModel.kt:113 | escaping distributes over concatenation |
| ConverterViewModel.UnescapeEscape | pdfConverter-main/app/src/main/java/com/example/pdfconverter/viewmodels/PDFConverterViewModel.kt:113 | for text without `&`, unescaping recovers the text |
| ConverterViewModel.EscapeNotInjective | pdfConverter-main/app/src/main/java/com/example/pdfconverter/viewmodels/PDFConverterViewModel.kt:113 | since `&` is not escaped, a literal `&lt;` and a `<` give the same HTML |
| ConverterViewModel.EscapeHtmlKeepsLines | pdfConverter-main/app/src/main/java/com/example/pdfconverter/viewmodels/PDFConverterViewModel.kt:113 | escaping adds no line breaks and keeps a final LF |
| ConverterViewModel.HtmlDocumentOfMultiLineText | pdfConverter-main/app/src/main/java/com/example/pdfconverter/viewmodels/PDFConverterViewModel.kt:103-116 | for text ending in LF the document is the template lines with their source indentation, title holding the name and `<pre>` the escaped text |
| ConverterViewModel.HtmlDocumentOfSingleLineText | pdfConverter-main/app/src/main/java/com/example/pdfconverter/viewmodels/PDFConverterViewModel.kt:103-116 | for a single-line text the document is the template lines with sixteen spaces cut from each |
| ConverterViewModel.HtmlDocumentOfExtractedText | pdfConverter-main/app/src/main/java/com/example/pdfconverter/viewmodels/PDFConverterViewModel.kt:101-121 | the HTML of an extracted text has the name unescaped in `<title>` and the escaped text intact in `<pre>`; which indentation is cut depends on whether there was a page |
| ConverterViewModel.PageContents | pdfConverter-main/app/src/main/java/com/example/pdfconverter/viewmodels/PDFConverterViewModel.kt:59-69 | the PPT page list has one entry per page and entry i-1 is page i's text; there is no list when the stream is null |
| ConverterViewModel.TextPayload | pdfConverter-main/app/src/main/java/com/example/pdfconverter/viewmodels/PDFConverterViewModel.kt:33-122 | the text passed to the save function: exactly the RTF body of the text (so no LF) for RTF, the HTML document for HTML, the extracted text for TXT, DOCX and DOC |
| ConverterViewModel.DisplayNameIsOutputName | pdfConverter-main/app/src/main/java/com/example/pdfconverter/utills/PdfUtils.kt:249 | the `.html` rule never changes the name convertPdfToHtml passes, so every file is saved as base name plus extension |
| ConverterViewModel.ConvertPdf | pdfConverter-main/app/src/main/java/com/example/pdfconverter/viewmodels/PDFConverterViewModel.kt:33-122 | a file is saved exactly when the insert succeeds (and, for PPT, the stream opens), under base + extension with the format's MIME type; its content is the format's payload, or nothing when the output stream is null |
| ConverterViewModel.PdfConverterViewModel.constructor | pdfConverter-main/app/src/main/java/com/example/pdfconverter/viewmodels/PDFConverterViewModel.kt:20-30 | empty split list, both flags down, no merged URI |
| ConverterViewModel.PdfConverterViewModel.BeginSplit | pdfConverter-main/app/src/main/java/com/example/pdfconverter/viewmodels/PDFConverterViewModel.kt:141 | `isSplitting` is raised before the split; nothing else changes |
| ConverterViewModel.PdfConverterViewModel.FinishSplit | pdfConverter-main/app/src/main/java/com/example/pdfconverter/viewmodels/PDFConverterViewModel.kt:145-146 | the list becomes the splitter's result and the flag goes down |
| ConverterViewModel.PdfConverterViewModel.SplitPdfIntoPages | pdfConverter-main/app/src/main/java/com/example/pdfconverter/viewmodels/PDFConverterViewModel.kt:139-148 | afterwards the list equals what splitPdfPagesWithIText returned and `isSplitting` is false; merge state untouched |
| ConverterViewModel.PdfConverterViewModel.BeginMerge | pdfConverter-main/app/src/main/java/com/example/pdfconverter/viewmodels/PDFConverterViewModel.kt:129 | `isMerging` is raised before the merge; nothing else changes |
| ConverterViewModel.PdfConverterViewModel.FinishMerge | pdfConverter-main/app/src/main/java/com/example/pdfconverter/viewmodels/PDFConverterViewModel.kt:133-134 | the merged URI is published and the flag goes down |
| ConverterViewModel.PdfConverterViewModel.MergeSelectedPdfs | pdfConverter-main/app/src/main/java/com/example/pdfconverter/viewmodels/PDFConverterViewModel.kt:127-136 | afterwards `mergedPdfUri` is what mergePdfsWithIText returned and `isMerging` is false; split state untouched |
| ConverterViewModel.PdfConverterViewModel.ClearSplitResult | pdfConverter-main/app/src/main/java/com/example/pdfconverter/viewmodels/PDFConverterViewModel.kt:152-155 | empty split list, `isSplitting` false, merge state untouched |
| SelectionState.Distinct | pdfConverter-main/app/src/main/java/com/example/pdfconverter/viewmodels/StateViewModel.kt:29 | `distinct()` has no duplicates, holds exactly the input's elements and is no longer than the input |
| SelectionState.DistinctMembers | pdfConverter-main/app/src/main/java/com/example/pdfconverter/viewmodels/StateViewModel.kt:29 | an element is in `distinct()` exactly when it is in the input |
| SelectionState.DistinctFirstOccurrenceOrder | pdfConverter-main/app/src/main/java/com/example/pdfconverter/viewmodels/StateViewModel.kt:29 | `distinct()` lists elements in the order of their first occurrences |
| SelectionState.DistinctOfDistinct | pdfConverter-main/app/src/main/java/com/example/pdfconverter/viewmodels/StateViewModel.kt:29 | a list without duplicates is unchanged by `distinct()` |
| SelectionState.DistinctAbsorbs | pdfConverter-main/app/src/main/java/com/example/pdfconverter/viewmodels/StateViewModel.kt:29 | appending only elements already present and taking `distinct()` changes nothing |
| SelectionState.DistinctKeepsPrefix | pdfConverter-main/app/src/main/java/com/example/pdfconverter/viewmodels/StateViewModel.kt:29 | the old duplicate-free list stays in front, in its order |
| SelectionState.RemoveFirst | pdfConverter-main/app/src/main/java/com/example/pdfconverter/viewmodels/StateViewModel.kt:25 | `remove` leaves a list without the element unchanged and otherwise shortens it by one |
| SelectionState.RemoveFirstMultiset | pdfConverter-main/app/src/main/java/com/example/pdfconverter/viewmodels/StateViewModel.kt:25 | exactly one copy of the element is removed, if any |
| SelectionState.RemoveFirstSplit | pdfConverter-main/app/src/main/java/com/example/pdfconverter/viewmodels/StateViewModel.kt:25 | the copy removed is the first one, and the entries before and after it keep their order |
| SelectionState.RemoveFirstNoDuplicates | pdfConverter-main/app/src/main/java/com/example/pdfconverter/viewmodels/StateViewModel.kt:24-26 | in a duplicate-free list the element is gone afterwards, every other element stays and no duplicate appears |
| SelectionState.StateViewModel.constructor | pdfConverter-main/app/src/main/java/com/example/pdfconverter/viewmodels/StateViewModel.kt:12-20 | nothing selected, empty merge list, invariant holds |
| SelectionState.StateViewModel.RemovePdfUri | pdfConverter-main/app/src/main/java/com/example/pdfconverter/viewmodels/StateViewModel.kt:24-26 | the first occurrence leaves the merge list, the URI is absent afterwards, the single selection is untouched |
| SelectionState.StateViewModel.AddPdfUris | pdfConverter-main/app/src/main/java/com/example/pdfconverter/viewmodels/StateViewModel.kt:28-31 | the list becomes `(old + new).distinct()`: no duplicates, old entries in front in order, exactly old ∪ new; the single selection is untouched |
| SelectionState.AddPdfUrisIdempotent | pdfConverter-main/app/src/main/java/com/example/pdfconverter/viewmodels/StateViewModel.kt:28-31 | adding the same URIs twice gives the list adding them once gave |
| SelectionState.StateViewModel.ClearSelectedPdfUris | pdfConverter-main/app/src/main/java/com/example/pdfconverter/viewmodels/StateViewModel.kt:33-35 | the merge list is emptied; the single selection is untouched |
| SelectionState.StateViewModel.SetSelectedPdf | pdfConverter-main/app/src/main/java/com/example/pdfconverter/viewmodels/StateViewModel.kt:39-42 | URI and name are set together; the merge list is untouched |
| SelectionState.StateViewModel.ClearSelectedPdf | pdfConverter-main/app/src/main/java/com/example/pdfconverter/viewmodels/StateViewModel.kt:44-47 | URI and name are cleared together; the merge list is untouched |
| PdfPicker.LastIndexOf | pdfConverter-main/app/src/main/java/com/example/pdfconverter/screens/PdfPickerScreen.kt:219 | the last index of a character: none exactly when it is absent, otherwise no later occurrence |
| PdfPicker.SubstringBeforeLast | pdfConverter-main/app/src/main/java/com/example/pdfconverter/screens/PdfPickerScreen.kt:219 | without the character the text is kept whole; otherwise the result is the prefix before the last occurrence, with no occurrence after it |
| PdfPicker.BaseName | pdfConverter-main/app/src/main/java/com/example/pdfconverter/screens/PdfPickerScreen.kt:219 | the default without a name, the whole name without a dot, otherwise the text before the last dot |
| PdfPicker.BaseNameSplitsAtLastDot | pdfConverter-main/app/src/main/java/com/example/pdfconverter/screens/PdfPickerScreen.kt:219 | a name with a dot is base + "." + suffix, the suffix holding no dot |
| PdfPicker.BaseNameKeepsEarlierDots | pdfConverter-main/app/src/main/java/com/example/pdfconverter/screens/PdfPickerScreen.kt:219 | only the last extension is removed |
| PdfPicker.ConverterFor | pdfConverter-main/app/src/main/java/com/example/pdfconverter/screens/PdfPickerScreen.kt:222-229 | the dispatch finds a conversion exactly for the six menu labels, and each label names its conversion's extension |
| PdfPicker.FormatOf | pdfConverter-main/app/src/main/java/com/example/pdfconverter/screens/PdfPickerScreen.kt:40 | every conversion's label is a menu entry |
| PdfPicker.FormatOfDispatches | pdfConverter-main/app/src/main/java/com/example/pdfconverter/screens/PdfPickerScreen.kt:222-229 | choosing a conversion's label starts that conversion |
| PdfPicker.ConverterForFormatOf | pdfConverter-main/app/src/main/java/com/example/pdfconverter/screens/PdfPickerScreen.kt:222-229 | every menu label is the label of the conversion it starts |
| PdfPicker.ConverterForDistinct | pdfConverter-main/app/src/main/java/com/example/pdfconverter/screens/PdfPickerScreen.kt:222-228 | different menu entries start different conversions |
| PdfPicker.DoneMessage | pdfConverter-main/app/src/main/java/com/example/pdfconverter/screens/PdfPickerScreen.kt:86 | the message names the selected format on its first line and the base name on its second, and holds nothing else |
| PdfPicker.PickerScreen.constructor | pdfConverter-main/app/src/main/java/com/example/pdfconverter/screens/PdfPickerScreen.kt:45-50 | the format starts as the first label; menu closed, no message, no conversion running |
| PdfPicker.PickerScreen.ToggleMenu | pdfConverter-main/app/src/main/java/com/example/pdfconverter/screens/PdfPickerScreen.kt:181 | the menu opens or closes; nothing else changes |
| PdfPicker.PickerScreen.DismissMenu | pdfConverter-main/app/src/main/java/com/example/pdfconverter/screens/PdfPickerScreen.kt:198 | dismissing the menu closes it; nothing else changes |
| PdfPicker.PickerScreen.SelectFormat | pdfConverter-main/app/src/main/java/com/example/pdfconverter/screens/PdfPickerScreen.kt:203-206 | the chosen label becomes the format, so the format stays a menu label; the menu closes |
| PdfPicker.PickerScreen.ConvertClick | pdfConverter-main/app/src/main/java/com/example/pdfconverter/screens/PdfPickerScreen.kt:218-233 | a conversion is dispatched exactly when a PDF is selected: the one the format names, on that URI, under the base name with default `output`, and the conversion is marked running |
| PdfPicker.PickerScreen.ConversionDone | pdfConverter-main/app/src/main/java/com/example/pdfconverter/screens/PdfPickerScreen.kt:82-90 | the spinner goes, the done message appears and the trigger is reset |
| PdfPicker.PickerScreen.SuccessMessageExpired | pdfConverter-main/app/src/main/java/com/example/pdfconverter/screens/PdfPickerScreen.kt:74-80 | the message is hidden and cleared |
| PdfPicker.PickerScreen.CloseClick | pdfConverter-main/app/src/main/java/com/example/pdfconverter/screens/PdfPickerScreen.kt:166-169 | only the message is cleared; the selected PDF stays selected |
| PdfPicker.PickerScreen.BackPressed | pdfConverter-main/app/src/main/java/com/example/pdfconverter/screens/PdfPickerScreen.kt:52-55 | the selected PDF is cleared, the merge list is untouched |
| PdfPicker.PickerScreen.DocumentPicked | pdfConverter-main/app/src/main/java/com/example/pdfconverter/screens/PdfPickerScreen.kt:57-71 | a picked document with a readable name becomes the selection; otherwise nothing changes |

The functions below carry no contract of their own. They define the
behaviour that the lemmas and methods in the table are proved against:

- `Indent.JoinLines`, `Indent.TrimIndent`, `Indent.Reindent`: `trimIndent()`
  (PDFConverterViewModel.kt:116).
- `ConverterViewModel.HtmlTemplate`, `ConverterViewModel.HtmlDocument`: the
  HTML raw string and its trimmed form (PDFConverterViewModel.kt:103-116).
- `ConverterViewModel.EscapeEach`: per-character escaping, equal to the two
  chained replaces (PDFConverterViewModel.kt:113).
- `ConverterViewModel.UnescapeHtml`: the inverse of escaping, used only to
  state that escaping loses nothing.
- `ConverterViewModel.MimeType`, `ConverterViewModel.DisplayName`: the
  MIME type and display name of each save function (PdfUtils.kt:52-53,
  85-86, 124-125, 174-175, 210-211, 248-251).
- `PdfUtil.JoinPages`, `PdfUtil.ExtractedText`: `extractTextFromPdf`
  (PdfUtils.kt:34-43).
- `PdfUtil.RtfContent`: the inverse of the RTF rewrite, used only to state
  what the RTF file keeps of the text (PdfUtils.kt:185).
- `PdfUtil.PageFileName`: the split file name (PdfUtils.kt:331).
- `PdfUtil.MergedPages`: the pages of the merged document
  (PdfUtils.kt:289-297).

## Left out

- Android storage: MediaStore inserts, `IS_PENDING` updates, persistable
  URI permissions, output streams and their byte encoding
  (`toByteArray`), and Toasts. They are replaced by their outcomes (the
  `Store` value, `output`, `streamOpened`, `inserted`), passed in as
  parameters.
- iText and Apache POI: reading pages, copying pages and writing
  DOCX/PPTX/DOC files belong to these libraries. The model records only
  what is handed to them: the page texts, the text, the slide texts and
  the pages copied.
- ConverterViewModel.ConvertPdf: for DOC, the saved content is the text
  passed to `saveTextAsDocToDownloads`. The writer there
  (PdfUtils.kt:222-225) builds an `HWPFDocument` from 512 zero bytes,
  which is not an OLE2 container, so POI evidently throws before
  `insertAfter` runs. The `catch` at PdfUtils.kt:236 swallows the
  exception, so the file stays empty and its `IS_PENDING` update
  (PdfUtils.kt:232-234) is skipped. The model does not capture this
  library failure.
- Whether a POI slide layout's first shape is a text shape: a parameter
  (`textShape`).
- Exceptions are not modelled:
  - a malformed PDF;
  - `PdfReader` given a null stream in split and merge;
  - the `FileNotFoundException` that `openInputStream` throws for a URI
    it cannot open, which `extractTextFromPdf` (PdfUtils.kt:28) does not
    catch; the "Failed to read file" text appears only when
    `openInputStream` returns null;
  - the exceptions the save functions catch and ignore.

  The one exception path that is modelled is the `!!` in convertPdfToPpt:
  a null input stream gives no page list, so no file is written. In the
  app the NullPointerException is not caught inside `viewModelScope` and
  crashes the app; the model does not capture the crash.
- Coroutines and timers, which are scheduling rather than logic:
  - `viewModelScope`, `Dispatchers` and `withContext`;
  - the `LaunchedEffect` delays of the picker screen.

  The intermediate flag states of split and merge are separate methods
  (`BeginSplit`, `FinishSplit`, `BeginMerge`, `FinishMerge`).
  Interleavings of concurrent conversions are not modelled.
- Text.Take: counts Unicode scalar values, while Kotlin's `take` counts
  UTF-16 code units. A page whose 2000th unit is half a surrogate pair is
  cut differently.
- ConverterViewModel.HtmlDocumentOfExtractedText: states the document's
  shape only for page texts without CR and file names with no line break
  at all (neither LF nor CR).
  `HtmlDocument` itself models how `lines()` treats CR.
- PdfPicker.PickerScreen.ConvertClick: requires that no conversion is
  running, because the Convert button is only composed while
  `isConverting` is false.
- Compose layout, navigation, the PDF viewer, the rest of the split
  screen (its base name is `BaseName` with default `split_output`), the
  main screen and the activity.
- `PdfElement.kt` is not part of this model: it declares a data class
  with floating-point fields that no code builds or reads.
