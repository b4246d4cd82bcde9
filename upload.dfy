/**
 * The upload page (src/pages/Upload.tsx): the form state, the file-type gate,
 * the submit flow that builds and saves a report with a fresh access code and
 * a 48-hour lifetime, and the reset. The file read (`fileToBase64`) is an
 * outcome passed in; the clock and the random draws are parameters.
 */
module UploadPage {
  import opened Types
  import opened Text
  import opened FileUtils
  import opened Storage

  datatype FormData = FormData(patientName: string, reportType: string, reportDate: string, remarks: string)

  const EmptyForm: FormData := FormData("", "", "", "")

  /** The `name` attributes of the four form controls. */
  datatype Field = PatientName | ReportType | ReportDate | Remarks

  /** What the asynchronous file read delivers: a data URL, or an error. */
  datatype ReadOutcome = DataUrl(data: string) | ReadFailed

  const InvalidTypeError: string := "Please select a valid file type (PDF, JPG, PNG)"
  const NoFileError: string := "Please select a file to upload"
  const MissingFieldsError: string := "Please fill in all required fields"
  const UploadFailedError: string := "Failed to upload report. Please try again."

  /** `{ ...prev, [name]: value }`. */
  function WithField(form: FormData, field: Field, value: string): FormData {
    match field
    case PatientName => form.(patientName := value)
    case ReportType => form.(reportType := value)
    case ReportDate => form.(reportDate := value)
    case Remarks => form.(remarks := value)
  }

  /** The guard of `handleSubmit`: remarks are optional, the other three
      fields must be non-empty strings. */
  predicate HasRequiredFields(form: FormData) {
    form.patientName != "" && form.reportType != "" && form.reportDate != ""
  }

  /** The record `handleSubmit` saves: the id is the decimal rendering of
      `Date.now()`, read separately from the upload time `now`. */
  function BuildReport(form: FormData, file: FileInfo, data: string, code: string, now: int, idClock: int): (r: Report)
    ensures r.expiresAt - r.uploadDate == 48 * 60 * 60 * 1000
    ensures r.accessCode == code && r.fileName == file.name && r.fileData == data
    ensures r.patientName == form.patientName && r.reportType == form.reportType
    ensures r.reportDate == form.reportDate && r.remarks == form.remarks
  {
    Report(
      id := IntToString(idClock),
      accessCode := code,
      patientName := form.patientName,
      reportType := form.reportType,
      reportDate := form.reportDate,
      remarks := form.remarks,
      fileName := file.name,
      fileData := data,
      uploadDate := now,
      expiresAt := now + ExpiryWindowMs)
  }

  /** Reports built at distinct `Date.now()` readings get distinct ids. */
  lemma DistinctClockReadingsGiveDistinctIds(
    form: FormData, file: FileInfo, data: string, code: string, now: int, idClock: int,
    form': FormData, file': FileInfo, data': string, code': string, now': int, idClock': int)
    requires idClock != idClock'
    ensures BuildReport(form, file, data, code, now, idClock).id !=
            BuildReport(form', file', data', code', now', idClock').id
  {
    if IntToString(idClock) == IntToString(idClock') {
      IntToStringInjective(idClock, idClock');
    }
  }

  /** The life of an uploaded report whose code no stored report carries: a
      lookup of its code finds it, leaving the store alone, up to and
      including 48 hours after the upload, and afterwards finds nothing and
      drops it from the store. */
  lemma UploadedReportLifetime(
    reports: seq<Report>, form: FormData, file: FileInfo, data: string, code: string,
    now: int, idClock: int, t: int)
    requires forall r :: r in reports ==> r.accessCode != code
    ensures var report := BuildReport(form, file, data, code, now, idClock);
      var l := LookupByCode(reports + [report], code, t);
      && (t <= now + ExpiryWindowMs ==> l == Lookup(Some(report), reports + [report]))
      && (t > now + ExpiryWindowMs ==> l == Lookup(None, reports))
  {
    LookupAfterSave(reports, BuildReport(form, file, data, code, now, idClock), t);
  }

  class Upload {
    var form: FormData
    var file: Option<FileInfo>
    var isUploading: bool
    var uploadSuccess: bool
    var accessCode: string
    var error: string

    /** Every field empty, no file, no code, no message. */
    predicate IsClear()
      reads this
    {
      form == EmptyForm && file == None && !uploadSuccess && accessCode == "" && error == ""
    }

    constructor ()
      ensures IsClear() && !isUploading
    {
      form := EmptyForm;
      file := None;
      isUploading := false;
      uploadSuccess := false;
      accessCode := "";
      error := "";
    }

    /** `handleInputChange`: one form field takes the typed value. */
    method HandleInputChange(field: Field, value: string)
      modifies this`form
      ensures form == WithField(old(form), field, value)
    {
      form := WithField(form, field, value);
    }

    /** `handleFileChange`: an accepted file is kept and the message cleared;
        a refused one clears the file and sets the message; no selection at
        all changes nothing. */
    method HandleFileChange(selected: Option<FileInfo>)
      modifies this`file, this`error
      ensures selected.None? ==> file == old(file) && error == old(error)
      ensures selected.Some? && IsValidFileType(selected.value) ==> file == selected && error == ""
      ensures selected.Some? && !IsValidFileType(selected.value) ==> file == None && error == InvalidTypeError
    {
      if selected.Some? {
        if IsValidFileType(selected.value) {
          file := selected;
          error := "";
        } else {
          error := InvalidTypeError;
          file := None;
        }
      }
    }

    /** `handleSubmit`. A missing file or required field sets a message and
        saves nothing. Otherwise the file is read; a failed read sets a
        message and saves nothing; a successful one saves a report with a
        fresh code, expiring 48 hours after `now`, and shows that code.
        Past the validation, `isUploading` ends false on every path. */
    method HandleSubmit(store: ReportStore, read: ReadOutcome, draws: seq<nat>, now: int, idClock: int)
      requires AreDraws(draws)
      modifies this`isUploading, this`uploadSuccess, this`accessCode, this`error, store
      ensures old(file).None? ==>
        error == NoFileError && store.stored == old(store.stored) &&
        isUploading == old(isUploading) && uploadSuccess == old(uploadSuccess) && accessCode == old(accessCode)
      ensures old(file).Some? && !HasRequiredFields(form) ==>
        error == MissingFieldsError && store.stored == old(store.stored) &&
        isUploading == old(isUploading) && uploadSuccess == old(uploadSuccess) && accessCode == old(accessCode)
      ensures old(file).Some? && HasRequiredFields(form) && read.ReadFailed? ==>
        error == UploadFailedError && store.stored == old(store.stored) &&
        !isUploading && uploadSuccess == old(uploadSuccess) && accessCode == old(accessCode)
      ensures old(file).Some? && HasRequiredFields(form) && read.DataUrl? ==>
        && error == "" && !isUploading && uploadSuccess
        && IsAccessCode(accessCode) && Spells(accessCode, draws)
        && store.stored == Some(old(store.Reports()) +
             [BuildReport(form, old(file).value, read.data, accessCode, now, idClock)])
    {
      if file.None? {
        error := NoFileError;
        return;
      }
      if !HasRequiredFields(form) {
        error := MissingFieldsError;
        return;
      }
      isUploading := true;
      error := "";
      match read {
        case ReadFailed =>
          error := UploadFailedError;
        case DataUrl(data) =>
          var code := GenerateAccessCode(draws);
          var report := BuildReport(form, file.value, data, code, now, idClock);
          store.SaveReport(report);
          accessCode := code;
          uploadSuccess := true;
      }
      isUploading := false;
    }

    /** `resetForm`: back to the initial empty state. */
    method ResetForm()
      modifies this`form, this`file, this`uploadSuccess, this`accessCode, this`error
      ensures IsClear()
    {
      form := EmptyForm;
      file := None;
      uploadSuccess := false;
      accessCode := "";
      error := "";
    }
  }
}
