/**
 * The access page (src/pages/Access.tsx): code entry, the lookup flow that
 * reports a missing and an expired code alike, the submit-enable rule, the
 * preview choice and the reset. The clock is a parameter of the lookup.
 */
module AccessPage {
  import opened Types
  import opened Text
  import opened FileUtils
  import opened Storage

  const BlankCodeError: string := "Please enter an access code"
  const NotFoundError: string := "Invalid access code or report has expired"

  /** What `renderFilePreview` shows. */
  datatype Preview =
    | NoPreview              // nothing rendered
    | DocumentViewer(src: string)   // an iframe on the data URL
    | ImageViewer(src: string)      // an img on the data URL
    | Unavailable            // "Preview not available for this file type"

  /** The dispatch on the file extension. */
  function PreviewFor(fileType: string, src: string): (p: Preview)
    ensures p != NoPreview
    ensures p.DocumentViewer? <==> fileType == "pdf"
    ensures p.ImageViewer? <==> fileType == "jpg" || fileType == "jpeg" || fileType == "png"
    ensures !p.Unavailable? ==> p.src == src
  {
    if fileType == "pdf" then DocumentViewer(src)
    else if fileType in ["jpg", "jpeg", "png"] then ImageViewer(src)
    else Unavailable
  }

  /** For a file named `stem.ext`, the viewer depends on `ext` alone, and not
      on its letter case: PDF gives the document viewer, JPG, JPEG and PNG the
      image viewer, anything else the fallback. */
  lemma PreviewOfNamedFile(stem: string, ext: string, src: string)
    requires '.' !in ext
    ensures var p := PreviewFor(GetFileType(stem + "." + ext), src);
      && (ToLower(ext) == "pdf" ==> p == DocumentViewer(src))
      && (ToLower(ext) in ["jpg", "jpeg", "png"] ==> p == ImageViewer(src))
      && (ToLower(ext) !in ["pdf", "jpg", "jpeg", "png"] ==> p == Unavailable)
  {
    FileTypeOfLastSegment(stem, ext);
  }

  /** The upload check reads the declared MIME type and the preview reads the
      name, so an accepted upload can still get the fallback viewer. */
  lemma AcceptedUploadCanLackPreview()
    ensures var file := FileInfo("scan.txt", "image/png");
      IsValidFileType(file) && PreviewFor(GetFileType(file.name), "data:") == Unavailable
  {
    FileTypeOfLastSegment("scan", "txt");
    assert "scan" + "." + "txt" == "scan.txt";
    assert ToLower("txt") == "txt";
  }

  /** `getReportByCode` returns nothing exactly when the code is unknown or
      its first holder has expired; the page cannot tell the two apart. */
  lemma NotFoundMeansUnknownOrExpired(reports: seq<Report>, code: string, now: int)
    ensures LookupByCode(reports, code, now).found.None? <==>
      FindByCode(reports, code).None? ||
      now > reports[FindByCode(reports, code).value].expiresAt
  {
  }

  class Access {
    var accessCode: string
    var report: Option<Report>
    var error: string
    var isLoading: bool
    var showPreview: bool

    constructor ()
      ensures accessCode == "" && report == None && error == "" && !isLoading && showPreview
    {
      accessCode := "";
      report := None;
      error := "";
      isLoading := false;
      showPreview := true;
    }

    /** The input's `onChange`: the typed text is upper-cased on entry. */
    method HandleCodeInput(value: string)
      modifies this`accessCode
      ensures accessCode == ToUpper(value)
      ensures CanSubmit() <==> !isLoading && |value| == CodeLength
    {
      accessCode := ToUpper(value);
    }

    /** The submit button is enabled only for exactly six characters while no
        lookup is running. */
    predicate CanSubmit()
      reads this
    {
      !isLoading && |accessCode| == CodeLength
    }

    /** `handleSubmit`. A code that trims to nothing, that is an empty or
        white-space-only one, sets a message and leaves the store alone. Otherwise the upper-cased code is looked up;
        a hit is shown, and a miss, whether the code is unknown or expired,
        gives one and the same message and no report. */
    method HandleSubmit(store: ReportStore, now: int)
      modifies this`report, this`error, this`isLoading, store
      ensures IsBlank(accessCode) ==>
        error == BlankCodeError && store.stored == old(store.stored) &&
        report == old(report) && isLoading == old(isLoading)
      ensures !IsBlank(accessCode) ==>
        var l := LookupByCode(old(store.Reports()), ToUpper(accessCode), now);
        && store.Reports() == l.remaining
        && report == l.found
        && error == (if l.found.Some? then "" else NotFoundError)
        && !isLoading
    {
      TrimEmptyIffBlank(accessCode);
      if Trim(accessCode) == [] {
        error := BlankCodeError;
        return;
      }
      isLoading := true;
      error := "";
      var found := store.GetReportByCode(ToUpper(accessCode), now);
      if found.Some? {
        report := found;
      } else {
        error := NotFoundError;
        report := None;
      }
      isLoading := false;
    }

    /** The show/hide preview button. */
    method TogglePreview()
      modifies this`showPreview
      ensures showPreview == !old(showPreview)
    {
      showPreview := !showPreview;
    }

    /** `renderFilePreview`: nothing without a report or with the preview
        hidden; otherwise the viewer the file extension calls for, on the
        report's data URL. */
    function RenderFilePreview(): (p: Preview)
      reads this
      ensures p == NoPreview <==> report.None? || !showPreview
      ensures p != NoPreview ==> p == PreviewFor(GetFileType(report.value.fileName), report.value.fileData)
    {
      if report.None? || !showPreview then NoPreview
      else PreviewFor(GetFileType(report.value.fileName), report.value.fileData)
    }

    /** `resetSearch`: code, report and message are cleared. */
    method ResetSearch()
      modifies this`accessCode, this`report, this`error
      ensures accessCode == "" && report == None && error == ""
    {
      accessCode := "";
      report := None;
      error := "";
    }
  }

  /** Whatever case a generated code is typed in: the field holds exactly six
      characters, so submission is enabled while idle; it is not blank, so
      the lookup runs; and the lookup sees the code itself. */
  lemma TypedCodeIsLookedUpUpperCased(typed: string, code: string)
    requires IsAccessCode(code) && ToUpper(typed) == code
    ensures var field := ToUpper(typed);
      && |field| == CodeLength
      && !IsBlank(field)
      && ToUpper(field) == code
  {
    AccessCodeIsUpperCase(code);
    assert code[0] in CodeAlphabet;
    assert !IsWhiteSpace(code[0]);
  }
}
