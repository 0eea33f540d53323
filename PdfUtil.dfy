/** The string and list handling inside PdfUtil (PdfUtils.kt): how page texts
    are joined, how the RTF, slide and HTML outputs are derived from them, and
    in which order split and merge visit pages. Reading PDFs, the Android
    MediaStore and the document libraries are replaced by their outcomes,
    passed in as parameters. */
module PdfUtil {
  import opened Common
  import opened Text

  // ---------------------------------------------------------------- text

  /** What `extractTextFromPdf` returns when `openInputStream` returns null. */
  const FailedToRead := "Failed to read file"

  /** Page separator appended after every page. */
  const PageBreak := "\n\n"

  /** The text of the pages, in order, each followed by a blank line. */
  function JoinPages(pages: seq<string>): string {
    if pages == [] then "" else JoinPages(pages[..|pages| - 1]) + pages[|pages| - 1] + PageBreak
  }

  /** `extractTextFromPdf`. `source` is the PDF as opened through the content
      resolver: `None` when `openInputStream` returns null, otherwise the text
      that the PDF text extractor returns for pages 1..n. */
  method ExtractTextFromPdf(source: Option<seq<string>>) returns (text: string)
    ensures source.None? ==> text == FailedToRead
    ensures source.Some? ==> text == JoinPages(source.value)
  {
    if source.None? {
      return FailedToRead;
    }
    var pages := source.value;
    var sb := "";
    var i := 1;
    while i <= |pages|
      invariant 1 <= i <= |pages| + 1
      invariant sb == JoinPages(pages[..i - 1])
    {
      assert pages[..i] == pages[..i - 1] + [pages[i - 1]];
      sb := sb + pages[i - 1] + PageBreak;
      i := i + 1;
    }
    assert pages[..|pages|] == pages;
    text := sb;
  }

  /** The text `extractTextFromPdf` returns for `source`. */
  function ExtractedText(source: Option<seq<string>>): string {
    if source.None? then FailedToRead else JoinPages(source.value)
  }

  /** Joining pages distributes over splitting the page list. */
  lemma {:induction false} JoinPagesAppend(p: seq<string>, q: seq<string>)
    ensures JoinPages(p + q) == JoinPages(p) + JoinPages(q)
    decreases |q|
  {
    if q == [] {
      assert p + q == p;
    } else {
      var n := |q|;
      assert (p + q)[..|p + q| - 1] == p + q[..n - 1];
      JoinPagesAppend(p, q[..n - 1]);
    }
  }

  /** Page `i` appears, followed by its blank line, right after the text of the pages before it. */
  lemma JoinPagesAt(p: seq<string>, i: nat)
    requires i < |p|
    ensures JoinPages(p) == JoinPages(p[..i]) + p[i] + PageBreak + JoinPages(p[i + 1..])
  {
    var pre := p[..i];
    var upTo := pre + [p[i]];
    assert upTo[..|upTo| - 1] == pre;
    assert JoinPages(upTo) == JoinPages(pre) + p[i] + PageBreak;
    assert upTo + p[i + 1..] == p;
    JoinPagesAppend(upTo, p[i + 1..]);
  }

  /** Total number of characters of the pages. */
  function TotalLength(pages: seq<string>): nat {
    if pages == [] then 0 else TotalLength(pages[..|pages| - 1]) + |pages[|pages| - 1]|
  }

  /** The text is exactly the pages plus two characters per page; no pages give "". */
  lemma {:induction false} JoinPagesLength(p: seq<string>)
    ensures |JoinPages(p)| == TotalLength(p) + 2 * |p|
    ensures p == [] <==> JoinPages(p) == ""
  {
    if p != [] {
      JoinPagesLength(p[..|p| - 1]);
    }
  }

  /** With at least one page the text ends with an LF; without CR in the pages there is none in the text. */
  lemma {:induction false} JoinPagesShape(p: seq<string>)
    requires forall i :: 0 <= i < |p| ==> '\r' !in p[i]
    ensures |p| > 0 ==> EndsWith(JoinPages(p), "\n")
    ensures '\r' !in JoinPages(p)
  {
    if p != [] {
      JoinPagesShape(p[..|p| - 1]);
    }
  }

  // ---------------------------------------------------------------- mime types

  const TextMime := "text/plain"
  const WordMime := "application/vnd.openxmlformats-officedocument.wordprocessingml.document"
  const PptMime := "application/vnd.openxmlformats-officedocument.presentationml.presentation"
  const RtfMime := "application/rtf"
  const DocMime := "application/msword"
  const HtmlMime := "text/html"

  // ---------------------------------------------------------------- rtf

  /** The fixed start of the RTF output: `{\rtf1\ansi\deff0` followed by a
      backslash and the letter n (not a line feed). */
  const RtfHeader := "{\\rtf1\\ansi\\deff0\\n"

  /** The replacement for each line feed of the content. */
  const RtfLineBreak := "\\line "

  /** The bytes written by `saveTextAsRtfToDownloads`: every LF of the content
      becomes `\line `; backslashes and braces are not escaped. */
  function RtfBody(content: string): (r: string)
    ensures '\n' !in r
    ensures StartsWith(r, RtfHeader) && EndsWith(r, " }")
  {
    RtfHeader + ReplaceChar(content, '\n', RtfLineBreak) + " }"
  }

  /** Only line feeds are rewritten: each adds five characters. */
  lemma RtfBodyLength(content: string)
    ensures |RtfBody(content)| == |RtfHeader| + |content| + 5 * Count(content, '\n') + 2
  {
    ReplaceCharLength(content, '\n', RtfLineBreak);
  }

  /** Reads the content back out of an RTF body, turning `\line ` into LF. */
  function RtfContent(body: string): string
    requires StartsWith(body, RtfHeader) && EndsWith(body, " }")
    requires |body| >= |RtfHeader| + 2
  {
    RestoreChar(body[|RtfHeader|..|body| - 2], RtfLineBreak, '\n')
  }

  /** Content without backslashes survives the trip through RTF. */
  lemma RtfRoundTrip(content: string)
    requires '\\' !in content
    ensures |RtfBody(content)| >= |RtfHeader| + 2
    ensures RtfContent(RtfBody(content)) == content
  {
    var body := RtfBody(content);
    var mid := ReplaceChar(content, '\n', RtfLineBreak);
    assert body[|RtfHeader|..|body| - 2] == mid;
    RestoreReplaceChar(content, '\n', RtfLineBreak);
  }

  /** Because backslashes are not escaped, a content holding `\line ` gives
      the same body as one holding a line feed. */
  lemma RtfNotInjective()
    ensures RtfBody("\n") == RtfBody("\\line ")
  {
    ReplaceCharAbsent("\\line ", '\n', RtfLineBreak);
    assert ReplaceChar("\n", '\n', RtfLineBreak) == RtfLineBreak;
  }

  // ---------------------------------------------------------------- slides

  /** `take(2000)` applied to each page before it is put on a slide. */
  const SlideTextLimit := 2000

  /** A slide of the presentation: the text put into its first shape, or
      `None` when the layout's first shape is not a text shape. */
  datatype Slide = Slide(text: Option<string>)

  /** The slide loop of `savePdfAsPptToDownloads`: one slide per entry, in
      order. `textShape` says whether the title-and-content layout's first
      shape is a text shape. */
  method SlideTexts(content: seq<string>, textShape: bool) returns (slides: seq<Slide>)
    ensures |slides| == |content|
    ensures forall i :: 0 <= i < |content| ==>
      slides[i].text == if textShape then Some(Take(content[i], SlideTextLimit)) else None
  {
    slides := [];
    for i := 0 to |content|
      invariant |slides| == i
      invariant forall k :: 0 <= k < i ==>
        slides[k].text == if textShape then Some(Take(content[k], SlideTextLimit)) else None
    {
      var slide := Slide(None);
      if textShape {
        slide := Slide(Some(Take(content[i], SlideTextLimit)));
      }
      slides := slides + [slide];
    }
  }

  // ---------------------------------------------------------------- html name

  /** The display name chosen by `saveHtmlToDownloads`. */
  function HtmlDisplayName(fileName: string): (r: string)
    ensures EndsWith(r, ".html")
    ensures StartsWith(r, fileName)
    ensures EndsWith(fileName, ".html") <==> r == fileName
    ensures !EndsWith(fileName, ".html") ==> |r| == |fileName| + 5
  {
    if EndsWith(fileName, ".html") then fileName else fileName + ".html"
  }

  /** Applying the rule twice changes nothing more. */
  lemma HtmlDisplayNameIdempotent(fileName: string)
    ensures HtmlDisplayName(HtmlDisplayName(fileName)) == HtmlDisplayName(fileName)
  {
  }

  // ---------------------------------------------------------------- split

  /** Output name of page `i`: `${baseFileName}_page_$i.pdf`. */
  function PageFileName(base: string, i: nat): string {
    base + "_page_" + Decimal(i) + ".pdf"
  }

  /** Different pages get different names. */
  lemma PageFileNameInjective(base: string, i: nat, j: nat)
    requires PageFileName(base, i) == PageFileName(base, j)
    ensures i == j
  {
    var a, b := PageFileName(base, i), PageFileName(base, j);
    var k := |base| + 6;
    assert |Decimal(i)| == |a| - k - 4 == |Decimal(j)|;
    assert Decimal(i) == a[k..|a| - 4];
    assert Decimal(j) == b[k..|b| - 4];
    DecimalInjective(i, j);
  }

  /** Pages 1..n whose MediaStore insert succeeded (`inserted[i - 1]`), ascending. */
  function SavedPages(inserted: seq<bool>): (r: seq<nat>)
    ensures |r| <= |inserted|
    ensures forall k :: 0 <= k < |r| ==> 1 <= r[k] <= |inserted| && inserted[r[k] - 1]
    ensures forall k, l :: 0 <= k < l < |r| ==> r[k] < r[l]
    ensures forall p :: 1 <= p <= |inserted| && inserted[p - 1] ==> p in r
  {
    if inserted == [] then []
    else
      var n := |inserted|;
      var prefix := inserted[..n - 1];
      SavedPages(prefix) + (if inserted[n - 1] then [n] else [])
  }

  /** The names `splitPdfPagesWithIText` returns. */
  function SplitFileNames(base: string, inserted: seq<bool>): (r: seq<string>)
    ensures |r| == |SavedPages(inserted)|
    ensures forall k :: 0 <= k < |r| ==> r[k] == PageFileName(base, SavedPages(inserted)[k])
  {
    var pages := SavedPages(inserted);
    seq(|pages|, k requires 0 <= k < |pages| => PageFileName(base, pages[k]))
  }

  /** `splitPdfPagesWithIText`: for i in 1..totalPages a file name is made
      and recorded when the MediaStore insert for that page succeeded.
      `inserted` holds those outcomes, one per page. */
  method SplitPdfPagesWithIText(base: string, inserted: seq<bool>) returns (fileNames: seq<string>)
    ensures fileNames == SplitFileNames(base, inserted)
  {
    fileNames := [];
    var i := 1;
    while i <= |inserted|
      invariant 1 <= i <= |inserted| + 1
      invariant fileNames == SplitFileNames(base, inserted[..i - 1])
    {
      var fileName := PageFileName(base, i);
      assert inserted[..i][..i - 1] == inserted[..i - 1];
      if inserted[i - 1] {
        fileNames := fileNames + [fileName];
      }
      i := i + 1;
    }
    assert inserted[..|inserted|] == inserted;
  }

  /** At most one name per page, no name twice, and every page whose insert
      succeeded is named. */
  lemma SplitFileNamesProperties(base: string, inserted: seq<bool>)
    ensures |SplitFileNames(base, inserted)| <= |inserted|
    ensures NoDuplicates(SplitFileNames(base, inserted))
    ensures forall p :: 1 <= p <= |inserted| && inserted[p - 1] ==> PageFileName(base, p) in SplitFileNames(base, inserted)
  {
    var names, pages := SplitFileNames(base, inserted), SavedPages(inserted);
    forall k, l | 0 <= k < l < |names| ensures names[k] != names[l] {
      if names[k] == names[l] {
        PageFileNameInjective(base, pages[k], pages[l]);
      }
    }
    forall p | 1 <= p <= |inserted| && inserted[p - 1] ensures PageFileName(base, p) in names {
      assert p in pages;
      var k :| 0 <= k < |pages| && pages[k] == p;
      assert names[k] == PageFileName(base, p);
    }
  }

  // ---------------------------------------------------------------- merge

  /** Page `page` (1-based) of the input document at index `doc`. */
  datatype PageRef = PageRef(doc: nat, page: nat)

  /** Pages 1..n of document `d`, in order. */
  function DocPages(d: nat, n: nat): (r: seq<PageRef>)
    ensures |r| == n
    ensures forall k :: 0 <= k < n ==> r[k] == PageRef(d, k + 1)
  {
    seq(n, k requires 0 <= k < n => PageRef(d, k + 1))
  }

  /** For each input document in order, its pages 1..n in order. */
  function MergedPages(pageCounts: seq<nat>): seq<PageRef> {
    if pageCounts == [] then []
    else
      var n := |pageCounts|;
      MergedPages(pageCounts[..n - 1]) + DocPages(n - 1, pageCounts[n - 1])
  }

  function Sum(s: seq<nat>): nat {
    if s == [] then 0 else Sum(s[..|s| - 1]) + s[|s| - 1]
  }

  /** `mergePdfsWithIText`. `pageCounts[d]` is the number of pages of the
      document at `uris[d]`; `output` is the URI the MediaStore insert
      returned and `streamOpened` whether its output stream could be opened.
      Returns the merged URI and the pages copied, in copy order. */
  method MergePdfsWithIText(pageCounts: seq<nat>, output: Option<Uri>, streamOpened: bool)
    returns (merged: Option<Uri>, copied: seq<PageRef>)
    ensures merged == output
    ensures copied == if output.Some? && streamOpened then MergedPages(pageCounts) else []
  {
    copied := [];
    if output.Some? && streamOpened {
      var d := 0;
      while d < |pageCounts|
        invariant 0 <= d <= |pageCounts|
        invariant copied == MergedPages(pageCounts[..d])
      {
        var i := 1;
        while i <= pageCounts[d]
          invariant 1 <= i <= pageCounts[d] + 1
          invariant copied == MergedPages(pageCounts[..d]) + DocPages(d, i - 1)
        {
          copied := copied + [PageRef(d, i)];
          i := i + 1;
        }
        assert pageCounts[..d + 1][..d] == pageCounts[..d];
        d := d + 1;
      }
      assert pageCounts[..|pageCounts|] == pageCounts;
    }
    merged := output;
  }

  /** Page `a` is copied before page `b`. */
  predicate Before(a: PageRef, b: PageRef) {
    a.doc < b.doc || (a.doc == b.doc && a.page < b.page)
  }

  /** The merged document has as many pages as the inputs together, holds
      exactly the pages 1..n of each input, and copies them in document order
      and page order, so no page twice. */
  lemma {:induction false} MergedPagesProperties(pageCounts: seq<nat>)
    ensures |MergedPages(pageCounts)| == Sum(pageCounts)
    ensures forall r :: r in MergedPages(pageCounts) <==>
      r.doc < |pageCounts| && 1 <= r.page <= pageCounts[r.doc]
    ensures forall k, l :: 0 <= k < l < |MergedPages(pageCounts)| ==>
      Before(MergedPages(pageCounts)[k], MergedPages(pageCounts)[l])
  {
    if pageCounts != [] {
      var n := |pageCounts|;
      var prefix := pageCounts[..n - 1];
      MergedPagesProperties(prefix);
      var a, b := MergedPages(prefix), DocPages(n - 1, pageCounts[n - 1]);
      var m := a + b;
      forall r: PageRef ensures r in m <==> r.doc < n && 1 <= r.page <= pageCounts[r.doc] {
        if r in b {
          var k :| 0 <= k < |b| && b[k] == r;
        }
        if r.doc == n - 1 && 1 <= r.page <= pageCounts[r.doc] {
          assert b[r.page - 1] == r;
        }
      }
      forall k, l | 0 <= k < l < |m| ensures Before(m[k], m[l]) {
        if l < |a| {
          assert m[k] == a[k] && m[l] == a[l];
        } else if k < |a| {
          assert m[k] in a;
        }
      }
    }
  }
}
