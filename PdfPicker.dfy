/** The logic of the picker screen (PdfPickerScreen.kt): the output base name,
    the format menu and its dispatch to a conversion, and the remembered
    screen state changed by its event handlers. Composition, layout and
    navigation are not modelled. */
module PdfPicker {
  import opened Common
  import opened ConverterViewModel
  import opened SelectionState

  // ---------------------------------------------------------------- base name

  /** Index of the last occurrence of `c` in `s`, if any. */
  function LastIndexOf(s: string, c: char): (k: Option<nat>)
    ensures k.None? <==> c !in s
    ensures k.Some? ==> k.value < |s| && s[k.value] == c && c !in s[k.value + 1..]
  {
    if s == [] then None
    else if s[|s| - 1] == c then Some(|s| - 1)
    else
      var k := LastIndexOf(s[..|s| - 1], c);
      assert s == s[..|s| - 1] + [s[|s| - 1]];
      if k.Some? then
        assert s[k.value + 1..] == s[..|s| - 1][k.value + 1..] + [s[|s| - 1]];
        k
      else k
  }

  /** Kotlin's `substringBeforeLast(c)`: the text before the last `c`, or the
      whole text when there is none. */
  function SubstringBeforeLast(s: string, c: char): (r: string)
    ensures c !in s ==> r == s
    ensures c in s ==> |r| < |s| && s[..|r|] == r && s[|r|] == c && c !in s[|r| + 1..]
  {
    var k := LastIndexOf(s, c);
    if k.None? then s else s[..k.value]
  }

  /** The default base name on the picker screen. */
  const PickerDefaultName := "output"

  /** The default base name on the split screen. */
  const SplitDefaultName := "split_output"

  /** `fileName?.substringBeforeLast('.') ?: default`: the name without its
      last extension, the whole name when it has no dot, and `default` when
      there is no name. */
  function BaseName(fileName: Option<string>, default: string): (base: string)
    ensures fileName.None? ==> base == default
    ensures fileName.Some? && '.' !in fileName.value ==> base == fileName.value
    ensures fileName.Some? && '.' in fileName.value ==>
      |base| < |fileName.value| && fileName.value[..|base|] == base &&
      fileName.value[|base|] == '.' && '.' !in fileName.value[|base| + 1..]
  {
    match fileName
    case None => default
    case Some(name) => SubstringBeforeLast(name, '.')
  }

  /** A name with a dot is its base name, a dot and a last suffix without dots. */
  lemma BaseNameSplitsAtLastDot(name: string, default: string)
    requires '.' in name
    ensures var base := BaseName(Some(name), default);
      var suffix := name[|base| + 1..];
      name == base + "." + suffix && '.' !in suffix
  {
    var base := BaseName(Some(name), default);
    assert name == name[..|base|] + [name[|base|]] + name[|base| + 1..];
  }

  /** Taking the base name again removes the next extension: a name such as
      `a.b.pdf` loses only `.pdf`. */
  lemma BaseNameKeepsEarlierDots(base: string, suffix: string, default: string)
    requires '.' !in suffix
    ensures BaseName(Some(base + "." + suffix), default) == base
  {
    var name := base + "." + suffix;
    assert name[|base|] == '.' && name[|base| + 1..] == suffix;
  }

  // ---------------------------------------------------------------- format menu

  /** The labels of the format menu, in menu order. */
  const Formats: seq<string> := ["Text (.txt)", "Word (.docx)", "PowerPoint (.pptx)", "RTF (.rtf)", "DOC (.doc)", "HTML (.html)"]

  /** The `when (selectedFormat)` dispatch: the conversion a label starts,
      or none for a string that is not one of the labels. */
  function ConverterFor(format: string): (c: Option<Converter>)
    ensures c.Some? <==> format in Formats
    ensures c.Some? ==> EndsWith(format, Extension(c.value) + ")")
  {
    if format == "Text (.txt)" then Some(TextConverter)
    else if format == "Word (.docx)" then Some(WordConverter)
    else if format == "PowerPoint (.pptx)" then Some(PptConverter)
    else if format == "RTF (.rtf)" then Some(RtfConverter)
    else if format == "DOC (.doc)" then Some(DocConverter)
    else if format == "HTML (.html)" then Some(HtmlConverter)
    else None
  }

  /** The menu label of each conversion. */
  function FormatOf(c: Converter): (format: string)
    ensures format in Formats
  {
    match c
    case TextConverter => Formats[0]
    case WordConverter => Formats[1]
    case PptConverter => Formats[2]
    case RtfConverter => Formats[3]
    case DocConverter => Formats[4]
    case HtmlConverter => Formats[5]
  }

  /** Every conversion has a menu entry that starts it. */
  lemma FormatOfDispatches(c: Converter)
    ensures ConverterFor(FormatOf(c)) == Some(c)
  {
  }

  /** Every menu entry is the label of the conversion it starts, so no two
      entries start the same conversion. */
  lemma ConverterForFormatOf(format: string)
    requires format in Formats
    ensures ConverterFor(format).Some? && FormatOf(ConverterFor(format).value) == format
  {
  }

  /** Different menu entries start different conversions. */
  lemma ConverterForDistinct(f: string, g: string)
    requires f in Formats && g in Formats && f != g
    ensures ConverterFor(f) != ConverterFor(g)
  {
    ConverterForFormatOf(f);
    ConverterForFormatOf(g);
  }

  // ---------------------------------------------------------------- screen state

  /** A conversion started by the Convert button. */
  datatype Dispatch = Dispatch(converter: Converter, uri: Uri, baseName: string)

  /** The message shown once a conversion is reported done. */
  function DoneMessage(format: string, fileName: Option<string>): (m: string)
    ensures StartsWith(m, "Converted to " + format + "\n")
    ensures EndsWith(m, "Saved as: " + BaseName(fileName, PickerDefaultName))
    ensures |m| == |"Converted to "| + |format| + 1 + |"Saved as: "| + |BaseName(fileName, PickerDefaultName)|
  {
    var tail := "Saved as: " + BaseName(fileName, PickerDefaultName);
    var m := "Converted to " + format + "\n" + tail;
    assert m[|m| - |tail|..] == tail;
    m
  }

  /** The picker screen: its remembered variables and the StateViewModel it
      reads the selected PDF from. */
  class PickerScreen {
    const stateViewModel: StateViewModel
    var selectedFormat: string
    var expanded: bool
    var convertedMessage: Option<string>
    var showSuccessMessage: bool
    var isConverting: bool
    var triggerConversionDone: bool

    /** The selected format is always a menu label, so the dispatch always
        finds a conversion; a pending "done" report implies a running
        conversion. */
    ghost predicate Valid()
      reads this, stateViewModel
    {
      selectedFormat in Formats && stateViewModel.Valid() &&
      (triggerConversionDone ==> isConverting)
    }

    /** The screen's first composition. */
    constructor(stateViewModel: StateViewModel)
      requires stateViewModel.Valid()
      ensures Valid()
      ensures this.stateViewModel == stateViewModel
      ensures selectedFormat == Formats[0] && !expanded
      ensures convertedMessage.None? && !showSuccessMessage
      ensures !isConverting && !triggerConversionDone
    {
      this.stateViewModel := stateViewModel;
      selectedFormat := Formats[0];
      expanded := false;
      convertedMessage := None;
      showSuccessMessage := false;
      isConverting := false;
      triggerConversionDone := false;
    }

    /** `onExpandedChange`: the menu opens or closes. */
    method ToggleMenu()
      requires Valid()
      modifies this
      ensures Valid()
      ensures expanded == !old(expanded)
      ensures selectedFormat == old(selectedFormat) && convertedMessage == old(convertedMessage)
      ensures showSuccessMessage == old(showSuccessMessage) && isConverting == old(isConverting)
      ensures triggerConversionDone == old(triggerConversionDone)
    {
      expanded := !expanded;
    }

    /** The menu's `onDismissRequest`: a tap outside closes it. */
    method DismissMenu()
      requires Valid()
      modifies this
      ensures Valid()
      ensures !expanded
      ensures selectedFormat == old(selectedFormat) && convertedMessage == old(convertedMessage)
      ensures showSuccessMessage == old(showSuccessMessage) && isConverting == old(isConverting)
      ensures triggerConversionDone == old(triggerConversionDone)
    {
      expanded := false;
    }

    /** A menu item's `onClick`: the item's label becomes the format and the menu closes. */
    method SelectFormat(format: string)
      requires Valid() && format in Formats
      modifies this
      ensures Valid()
      ensures selectedFormat == format && !expanded
      ensures convertedMessage == old(convertedMessage) && showSuccessMessage == old(showSuccessMessage)
      ensures isConverting == old(isConverting) && triggerConversionDone == old(triggerConversionDone)
    {
      selectedFormat := format;
      expanded := false;
    }

    /** The Convert button's `onClick`. The button is only composed while no
        conversion is in progress. With a selected PDF it starts the
        conversion the format names, under the file's base name, and marks
        the conversion as running; without one nothing happens. */
    method ConvertClick() returns (dispatched: Option<Dispatch>)
      requires Valid() && !isConverting
      modifies this
      ensures Valid()
      ensures dispatched.Some? <==> stateViewModel.selectedPdfUri.Some?
      ensures dispatched.Some? ==>
        Some(dispatched.value.converter) == ConverterFor(selectedFormat) &&
        dispatched.value.uri == stateViewModel.selectedPdfUri.value &&
        dispatched.value.baseName == BaseName(stateViewModel.selectedPdfFileName, PickerDefaultName)
      ensures isConverting == dispatched.Some? && triggerConversionDone == dispatched.Some?
      ensures selectedFormat == old(selectedFormat) && expanded == old(expanded)
      ensures convertedMessage == old(convertedMessage) && showSuccessMessage == old(showSuccessMessage)
    {
      var baseName := BaseName(stateViewModel.selectedPdfFileName, PickerDefaultName);
      dispatched := None;
      var pdfUri := stateViewModel.selectedPdfUri;
      if pdfUri.Some? {
        isConverting := true;
        var converter := ConverterFor(selectedFormat);
        dispatched := Some(Dispatch(converter.value, pdfUri.value, baseName));
        triggerConversionDone := true;
      }
    }

    /** The effect keyed on `triggerConversionDone`, once its delay is over:
        the spinner goes, the done message appears. */
    method ConversionDone()
      requires Valid() && triggerConversionDone
      modifies this
      ensures Valid()
      ensures !isConverting && showSuccessMessage && !triggerConversionDone
      ensures convertedMessage == Some(DoneMessage(selectedFormat, stateViewModel.selectedPdfFileName))
      ensures selectedFormat == old(selectedFormat) && expanded == old(expanded)
    {
      isConverting := false;
      convertedMessage := Some(DoneMessage(selectedFormat, stateViewModel.selectedPdfFileName));
      showSuccessMessage := true;
      triggerConversionDone := false;
    }

    /** The effect keyed on `showSuccessMessage`, once its delay is over. */
    method SuccessMessageExpired()
      requires Valid() && showSuccessMessage
      modifies this
      ensures Valid()
      ensures !showSuccessMessage && convertedMessage.None?
      ensures selectedFormat == old(selectedFormat) && expanded == old(expanded)
      ensures isConverting == old(isConverting) && triggerConversionDone == old(triggerConversionDone)
    {
      showSuccessMessage := false;
      convertedMessage := None;
    }

    /** The close button next to the file name: only the message goes; the
        selected PDF stays selected. */
    method CloseClick()
      requires Valid()
      modifies this
      ensures Valid()
      ensures convertedMessage.None? && !showSuccessMessage
      ensures stateViewModel.selectedPdfUri == old(stateViewModel.selectedPdfUri)
      ensures stateViewModel.selectedPdfFileName == old(stateViewModel.selectedPdfFileName)
      ensures selectedFormat == old(selectedFormat) && expanded == old(expanded)
      ensures isConverting == old(isConverting) && triggerConversionDone == old(triggerConversionDone)
    {
      convertedMessage := None;
      showSuccessMessage := false;
    }

    /** The back handler and the back arrow: the selected PDF is cleared
        (navigation to the main screen is not modelled). */
    method BackPressed()
      requires Valid()
      modifies stateViewModel
      ensures Valid()
      ensures stateViewModel.selectedPdfUri.None? && stateViewModel.selectedPdfFileName.None?
      ensures stateViewModel.selectedPdfUris == old(stateViewModel.selectedPdfUris)
    {
      stateViewModel.ClearSelectedPdf();
    }

    /** The document picker's result: a picked document whose name can be
        read becomes the selected PDF; otherwise nothing changes. */
    method DocumentPicked(uri: Option<Uri>, name: Option<string>)
      requires Valid()
      modifies stateViewModel
      ensures Valid()
      ensures uri.Some? && name.Some? ==>
        stateViewModel.selectedPdfUri == uri && stateViewModel.selectedPdfFileName == name
      ensures !(uri.Some? && name.Some?) ==>
        stateViewModel.selectedPdfUri == old(stateViewModel.selectedPdfUri) &&
        stateViewModel.selectedPdfFileName == old(stateViewModel.selectedPdfFileName)
      ensures stateViewModel.selectedPdfUris == old(stateViewModel.selectedPdfUris)
    {
      if uri.Some? && name.Some? {
        stateViewModel.SetSelectedPdf(uri.value, name.value);
      }
    }
  }
}
