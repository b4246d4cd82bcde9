# LabVault report store and pages, modelled in Dafny

LabVault is a browser application. A lab uploads a patient's report (PDF or image). The report is kept in the browser's local storage and tagged with a random six-character access code. The patient can look the report up with that code for 48 hours. A dashboard lists, filters, sorts, counts and deletes the stored reports.

This project models the following parts, one module each:

- **`Storage`** (`storage.dfy`): the report store.
  - A `ReportStore` class whose field `stored` is the persisted array. It is `None` while the storage key has never been written.
  - Its methods `SaveReport`, `GetReports`, `GetReportByCode` and `DeleteReport`.
  - A lookup with lazy expiry: an expired hit deletes every report carrying that code.
  - The access-code generator.
  - Each method is proved against a pure function on the report list: `FindByCode`, `LookupByCode`, `WithoutCode` and `WithoutId`.
- **`FileUtils`** (`file_utils.dfy`): the file-name extension and the MIME-type allow-list.
- **`DashboardPage`** (`dashboard.dfy`):
  - The filter-then-sort view. When no filter is on, the view sorts the page's own report list in place.
  - The per-type distribution, computed by a loop over an accumulator map.
  - The list of distinct report types, the "Active Codes" count and the per-row "Expired" status.
  - Confirmed deletion.
- **`UploadPage`** (`upload.dfy`): the upload form.
  - Field edits, the file-type gate and the submit flow with its three error messages.
  - The report it builds and saves: a new code, an id from the clock, and an expiry 48 hours after upload.
  - The reset.
- **`AccessPage`** (`access.dfy`): the patient page.
  - Code entry, which upper-cases the input; the six-character submit rule; and the blank-code guard.
  - A lookup that gives the same message for an unknown code and an expired one.
  - The preview choice by file extension; preview show/hide; and the reset.

Supporting modules:

- **`Types`**: the `Report` record and `Option`.
- **`Text`**: the string operations JavaScript provides.
  - `toLowerCase` and `toUpperCase` (ASCII letters only), `trim`, `split`/`pop` and `startsWith`.
  - A code-point string comparison standing in for `localeCompare`.
  - `Number.prototype.toString` for integers.
- **`Seqs`**: `Array.prototype.filter`, the subsequence order and the first index of an element.

Dates are whole milliseconds since the epoch (`int`). The clock, `Math.random` and the result of reading the file are parameters.

Two points of the code that are easy to misread:

- **Expiry sweep.** The comment at src/utils/storage.ts:27 speaks of removing the expired report, one record. The statement under it (src/utils/storage.ts:28) filters out every report carrying that access code. The model follows the statement. `Storage.ExpiredFirstMatchPurgesCode` and `Storage.EarlierNamesakeShadowsSave` state what it does.
- **Expiry boundary.** The boundary instant is treated differently in three places:
  - a lookup still succeeds at exactly `expiresAt`;
  - the "Active Codes" card no longer counts the report at that instant;
  - the row label does not yet say "Expired".

  `DashboardPage.StatusAgreesWithLookup` states all three.

## Model

| member | source | states |
|---|---|---|
| Storage.FindByCode | src/utils/storage.ts:18 | the position found holds the code, and no earlier report holds it; no position means no report holds it |
| Storage.LookupByCode | src/utils/storage.ts:16-34 | a hit is a report of the list that carries the code and is not past its expiry, and leaves the list as it is; a miss leaves only reports of the old list |
| Storage.ReportStore.GetReports | src/utils/storage.ts:11-14 | an absent key reads as the empty list, otherwise the stored list |
| Storage.ReportStore.SaveReport | src/utils/storage.ts:5-9 | the store becomes the old list with the report appended (one longer, old entries unchanged); an absent key is written for the first time |
| Storage.ReportStore.GetReportByCode | src/utils/storage.ts:16-34 | the answer and the new list are those of `LookupByCode`; a hit or an unknown code leaves the store untouched |
| Storage.ReportStore.DeleteReport | src/utils/storage.ts:36-39 | the store becomes the old list without the reports with that id |
| Storage.GenerateAccessCode | src/utils/storage.ts:41-48 | the result is six characters from `A-Z0-9`, each the alphabet character its random draw picks |
| Storage.EveryAccessCodeIsGenerable | src/utils/storage.ts:41-48 | every six-character `A-Z0-9` string is produced by some sequence of draws |
| Storage.AccessCodeIsUpperCase | src/utils/storage.ts:42 | upper-casing an access code leaves it unchanged |
| Storage.FoundIsLiveFirstMatch | src/utils/storage.ts:18-33 | a found report carries the code, is not past its expiry, is the first with that code, and the store is unchanged |
| Storage.LiveFirstMatchIsFound | src/utils/storage.ts:18-33 | the first report with the code is returned, and the store is unchanged, up to and including its expiry instant |
| Storage.ExpiredFirstMatchPurgesCode | src/utils/storage.ts:26-30 | an expired first match gives no result; the store then holds exactly the reports with other codes, in order, and is strictly shorter |
| Storage.MissLeavesStoreAlone | src/utils/storage.ts:18-20 | a code no report carries is a miss that changes nothing; so a second lookup right after a purge misses too |
| Storage.LookupAfterSave | src/utils/storage.ts:5-9 | after saving a report with a fresh code, looking the code up finds it until expiry; afterwards only that report is dropped |
| Storage.EarlierNamesakeShadowsSave | src/utils/storage.ts:18-30 | codes are not unique: an earlier report with the same code decides every lookup, and its expiry takes the later report with it |
| Storage.DeleteKeepsExactlyOthers | src/utils/storage.ts:37 | deletion keeps exactly the reports with another id, with their multiplicities and order; an absent id changes nothing; deleting twice is deleting once |
| Seqs.FilterCounts | src/utils/storage.ts:37 | a filter keeps every kept element as often as before and drops all others |
| Seqs.FilterIsSubsequence | src/utils/storage.ts:28 | a filter's result is a subsequence of its input (order kept) |
| Seqs.FilterAppend | src/utils/storage.ts:28 | filtering a concatenation is concatenating the filtered parts |
| Seqs.FilterIdempotent | src/utils/storage.ts:37 | filtering twice with one predicate is filtering once |
| Seqs.FilterSameLengthIsIdentity | src/utils/storage.ts:28 | a filter that drops nothing returns its input |
| Seqs.SubsequenceTransitive | src/pages/Dashboard.tsx:15-23 | a subsequence of a subsequence is a subsequence, so chained filters keep the order |
| FileUtils.GetFileType | src/utils/fileUtils.ts:19-22 | the extension is the part of the name after its last '.', lower-cased; the whole name when there is no '.' |
| Text.LastPieceAfterLastSeparator | src/utils/fileUtils.ts:20 | the last piece of `split` is the text after the last separator |
| Text.JoinSplit | src/utils/fileUtils.ts:20 | joining the pieces of `split` with the separator gives back the string |
| FileUtils.FileTypeHasNoDot | src/utils/fileUtils.ts:19-22 | the extension never contains '.' |
| FileUtils.FileTypeEmptyIff | src/utils/fileUtils.ts:21 | the extension is empty exactly when the name is empty or ends in '.' |
| FileUtils.FileTypeOfDotlessName | src/utils/fileUtils.ts:19-22 | a name without '.' is its own extension, lower-cased |
| FileUtils.FileTypeIdempotent | src/utils/fileUtils.ts:19-22 | taking the extension of an extension changes nothing |
| FileUtils.FileTypeOfLastSegment | src/utils/fileUtils.ts:19-22 | for `stem.ext` with no '.' in `ext` the extension is `ext` lower-cased, whatever the stem holds |
| FileUtils.IsValidFileType | src/utils/fileUtils.ts:24-27 | the upload gate: membership of the declared MIME type in the allow-list (a predicate with no contract of its own; `FileUtils.ValidFileTypeByMimeOnly` and `FileUtils.ValidFileTypeIsCaseSensitive` state its behaviour) |
| FileUtils.ValidFileTypeByMimeOnly | src/utils/fileUtils.ts:24-27 | acceptance depends on the declared MIME type alone and holds for exactly the four listed types |
| FileUtils.ValidFileTypeIsCaseSensitive | src/utils/fileUtils.ts:26 | `application/pdf` is accepted and `APPLICATION/PDF` refused |
| Text.ToLowerIdempotent | src/utils/fileUtils.ts:20 | lower-casing twice is lower-casing once |
| Text.TrimStartIsSuffix | src/pages/Access.tsx:17 | trimming the start leaves the suffix from the first non-white-space character; what it drops is all white space |
| Text.TrimEndIsPrefix | src/pages/Access.tsx:17 | trimming the end leaves the prefix up to the last non-white-space character; what it drops is all white space |
| Text.TrimEmptyIffBlank | src/pages/Access.tsx:17 | the trimmed code is empty exactly when every character is white space |
| Text.ToUpperNormalises | src/pages/Access.tsx:130 | upper-cased text has no lower-case letter, and text without one is unchanged |
| Text.StrCompareFlip | src/pages/Dashboard.tsx:28-31 | swapping the operands of the string comparison negates it |
| Text.StrCompareTransitive | src/pages/Dashboard.tsx:28-31 | the string comparison is transitive |
| Text.DecimalRoundTrip | src/pages/Upload.tsx:73 | reading back the decimal digits of a natural number gives the number |
| Text.IntToStringInjective | src/pages/Upload.tsx:73 | distinct integers have distinct decimal renderings |
| DashboardPage.FilterReports | src/pages/Dashboard.tsx:12-24 | the view is no longer than the report list and holds exactly the reports that pass both active filters |
| DashboardPage.FilterReportsSelectsInOrder | src/pages/Dashboard.tsx:13-23 | the filtered list holds exactly the reports passing both active filters, each as often as before, in the original order; with both filters off it is the list itself |
| DashboardPage.Compare | src/pages/Dashboard.tsx:25-34 | by upload date a report comes first exactly when it is newer; by name or type two reports tie exactly when that field is equal; an unknown key ties everything |
| DashboardPage.CompareFlip | src/pages/Dashboard.tsx:25-34 | the comparator is antisymmetric for every sort key |
| DashboardPage.CompareTransitive | src/pages/Dashboard.tsx:25-34 | the comparator is transitive for every sort key |
| DashboardPage.InsertPermutes | src/pages/Dashboard.tsx:25 | inserting adds the element once and loses none |
| DashboardPage.InsertKeepsSorted | src/pages/Dashboard.tsx:25-34 | inserting into a sorted list keeps it sorted |
| DashboardPage.Sort | src/pages/Dashboard.tsx:25 | the sort itself, with no contract of its own; `DashboardPage.SortSorts` and `DashboardPage.SortStable` state its behaviour |
| DashboardPage.SortSorts | src/pages/Dashboard.tsx:25-34 | the sort's result is ordered by the comparator and is a permutation of its input |
| DashboardPage.SortOfSortedIsIdentity | src/pages/Dashboard.tsx:25-34 | sorting an already ordered list leaves it as it is |
| DashboardPage.TiesAreEqual | src/pages/Dashboard.tsx:25-34 | two reports that tie with a third under the sort key tie with each other |
| DashboardPage.InsertStable | src/pages/Dashboard.tsx:25-34 | inserting a report keeps the relative order of the reports that tie under the sort key, with the new one before its equals |
| DashboardPage.SortStable | src/pages/Dashboard.tsx:25-34 | the sort is stable: the reports that tie under the sort key come out in their input order |
| DashboardPage.SortByUploadDateIsNewestFirst | src/pages/Dashboard.tsx:26-27 | sorted by upload date, no report precedes a newer one |
| DashboardPage.SortByUploadDateExample | src/pages/Dashboard.tsx:26-27 | uploads at T1 < T2 < T3 are listed T3, T2, T1 |
| DashboardPage.SortByUnknownKeyKeepsOrder | src/pages/Dashboard.tsx:33 | an unrecognised sort key leaves the order unchanged |
| DashboardPage.UniqueReportTypes | src/pages/Dashboard.tsx:65 | each report type appears once, and exactly the types that occur appear |
| Seqs.FirstIndexOf | src/pages/Dashboard.tsx:65 | the position found holds the element and no earlier position does |
| Seqs.FirstIndexOfAppend | src/pages/Dashboard.tsx:65 | appending an element does not move the first occurrence of one already present |
| DashboardPage.UniqueTypesInFirstAppearanceOrder | src/pages/Dashboard.tsx:65 | the distinct types are listed in the order of their first occurrence among the reports |
| DashboardPage.CountTypeIsMultiplicity | src/pages/Dashboard.tsx:38-41 | the counted number of a type is its multiplicity among the report types |
| DashboardPage.Percentage | src/pages/Dashboard.tsx:46 | the percentage is the whole number nearest to `100 * count / total` (halves up), and at most 100 |
| DashboardPage.ReportTypeStats | src/pages/Dashboard.tsx:37-48 | the loop's result equals one entry per distinct type in first-appearance order, each with its count and its rounded share |
| DashboardPage.TypeCountsSumToTotal | src/pages/Dashboard.tsx:37-48 | the per-type counts add up to the number of reports |
| DashboardPage.DistinctCardinality | src/pages/Dashboard.tsx:65 | a list without repeats is as long as its set of elements |
| DashboardPage.StatsCountDistinctTypes | src/pages/Dashboard.tsx:43 | the distribution has as many entries as there are distinct report types (the "Report Types" card) |
| DashboardPage.ActiveCount | src/pages/Dashboard.tsx:122 | the "Active Codes" count is at most the number of reports |
| DashboardPage.IsExpired | src/pages/Dashboard.tsx:214 | a row labelled "Expired" is never counted active |
| DashboardPage.ActiveCountPartition | src/pages/Dashboard.tsx:122 | active count plus expired rows plus reports at their expiry instant is the number of reports |
| DashboardPage.StatusAgreesWithLookup | src/pages/Dashboard.tsx:214 | the first report with a code is found exactly when its row is not "Expired"; at the expiry instant it is found and not labelled expired, but not counted active |
| DashboardPage.Dashboard.constructor | src/pages/Dashboard.tsx:7-10 | the page starts with every stored report, both filters off and newest first |
| DashboardPage.Dashboard.SetFilterType | src/pages/Dashboard.tsx:164 | the type filter takes the chosen value |
| DashboardPage.Dashboard.SetFilterDate | src/pages/Dashboard.tsx:176 | the date filter takes the chosen value |
| DashboardPage.Dashboard.SetSortBy | src/pages/Dashboard.tsx:182 | the sort key takes the chosen value |
| DashboardPage.Dashboard.FilteredReports | src/pages/Dashboard.tsx:12-35 | the view is the filtered list, sorted; with no filter the page's own list is reordered to the view, otherwise it is unchanged |
| DashboardPage.Dashboard.HandleDelete | src/pages/Dashboard.tsx:50-55 | once confirmed, the store loses the reports with that id and the page reloads it; otherwise nothing changes |
| UploadPage.BuildReport | src/pages/Upload.tsx:70-83 | the saved report expires exactly 48 hours after its upload time, carries the new code and the file's name and data, and copies the four form fields |
| UploadPage.DistinctClockReadingsGiveDistinctIds | src/pages/Upload.tsx:73 | reports built at distinct `Date.now()` readings have distinct ids |
| UploadPage.UploadedReportLifetime | src/pages/Upload.tsx:69-85 | a report saved with a fresh code is found by that code up to 48 hours after upload, and afterwards missed and dropped |
| UploadPage.Upload.constructor | src/pages/Upload.tsx:8-18 | the form starts empty, with no file, code or message, not uploading |
| UploadPage.Upload.HandleInputChange | src/pages/Upload.tsx:32-35 | the named field takes the value and the others are kept |
| UploadPage.Upload.HandleFileChange | src/pages/Upload.tsx:37-48 | an accepted file is kept and the message cleared; a refused one clears the file and sets the message; no selection changes nothing |
| UploadPage.Upload.HandleSubmit | src/pages/Upload.tsx:50-93 | no file, or a missing required field: a message and no save; a failed read: a message and no save; otherwise the built report is appended with a valid new code that the page shows; uploading ends false on every path past validation |
| UploadPage.Upload.ResetForm | src/pages/Upload.tsx:112-123 | form, file, code, success flag and message return to their initial values |
| AccessPage.Access.constructor | src/pages/Access.tsx:8-12 | no code, report or message, not loading, preview shown |
| AccessPage.Access.HandleCodeInput | src/pages/Access.tsx:130 | the field holds the upper-cased input, and submission is enabled exactly when no lookup runs and the input has six characters |
| AccessPage.Access.CanSubmit | src/pages/Access.tsx:143 | the submit-enable rule, a predicate with no contract of its own; `AccessPage.Access.HandleCodeInput` states when it holds after typing |
| AccessPage.TypedCodeIsLookedUpUpperCased | src/pages/Access.tsx:143 | a generated code typed in any case fills six characters (submit enabled while idle), is not blank, and is looked up as itself |
| AccessPage.Access.HandleSubmit | src/pages/Access.tsx:14-39 | a blank code: a message and no lookup; otherwise the upper-cased code is looked up, the report shown on a hit, one message for an unknown or expired code, loading ends false |
| AccessPage.NotFoundMeansUnknownOrExpired | src/pages/Access.tsx:28-33 | a lookup finds nothing exactly when the code is unknown or its first holder has expired |
| AccessPage.PreviewFor | src/pages/Access.tsx:62-92 | something is always shown: the document viewer exactly for `pdf`, the image viewer exactly for `jpg`, `jpeg` or `png`, each on the given data, the fallback otherwise |
| AccessPage.Access.TogglePreview | src/pages/Access.tsx:236 | the preview flag flips |
| AccessPage.Access.RenderFilePreview | src/pages/Access.tsx:59-93 | nothing without a report or with the preview hidden, otherwise the viewer the file extension selects on the report's data |
| AccessPage.PreviewOfNamedFile | src/pages/Access.tsx:62-92 | for `stem.ext`: a PDF viewer for pdf, an image viewer for jpg, jpeg or png, whatever the letter case, and the fallback for anything else |
| AccessPage.AcceptedUploadCanLackPreview | src/pages/Access.tsx:62-92 | a file accepted by MIME type (`scan.txt` declared `image/png`) still gets the fallback preview |
| AccessPage.Access.ResetSearch | src/pages/Access.tsx:95-99 | code, report and message are cleared |

## Left out

- Local storage itself and JSON encoding. The store is a field holding the report list. A corrupt stored value, which makes `JSON.parse` throw, and a full storage quota are not modelled. Neither is the message shown when such an exception reaches the catch block of the access page (src/pages/Access.tsx:34-35).
- `fileToBase64` and `downloadFile` (src/utils/fileUtils.ts:1-17) are browser I/O. The upload's file read is an outcome passed in (`DataUrl` or `ReadFailed`); a failure anywhere in the try block is modelled as a failed read.
- Clipboard copy, the access-code download, `window.print`, and the static pages and layout are not part of this model.
- `window.confirm` is a boolean parameter of `DashboardPage.Dashboard.HandleDelete`.
- `Math.random` becomes a sequence of six draws below 36, and `new Date()` / `Date.now()` become integer parameters.
- ISO date strings are not modelled. Upload and expiry times are milliseconds since the epoch.
- `reportDate` stays a string, as the date filter compares its prefix.
- `toLocaleDateString` formatting is not modelled.
- The "This Month" card (src/pages/Dashboard.tsx:98-100) depends on the local calendar month and is not modelled.
- `Text.StrCompare`: `localeCompare` is modelled as lexicographic order on code points. Locale collation (case and accent folding) is not captured. The sort properties proved hold for any total order.
- `Text.ToLower`, `Text.ToUpper`: ASCII letters only; Unicode case mapping is not modelled.
- Strings are sequences of Unicode code points. JavaScript's `length` and comparisons count UTF-16 code units, so a character outside the Basic Multilingual Plane counts once here and twice in the browser. The six-character submit rule (src/pages/Access.tsx:143) is therefore modelled for code points. An input holding such characters can be enabled here but disabled in the browser, or the reverse.
- `DashboardPage.Sort`: the engine's sorting algorithm is modelled as a stable insertion sort.
  - For the three keys the comparator is a total preorder. `DashboardPage.SortSorts` and `DashboardPage.SortStable` show that the result is sorted, a permutation and stable. Every stable sort gives that same result.
- `DashboardPage.ReportTypeStats`: the entries are in first-appearance order (`DashboardPage.UniqueTypesInFirstAppearanceOrder`).
  - `Object.entries` would list integer-like type names (such as "12") first, in numeric order; that is not modelled.
- `DashboardPage.Percentage` rounds the exact quotient. The floating-point division and multiplication can differ from it only at a value within rounding error of a half.
- The `maxLength={6}` attribute of the access-code input, which truncates typed text in the browser, is not modelled. `AccessPage.Access.HandleCodeInput` stores the full upper-cased text, and the submit rule checks the length.
- Ids come from `Date.now()` and are not checked for uniqueness. Two uploads in the same millisecond share an id, and `Storage.ReportStore.DeleteReport` removes both. The model states this and does not prevent it.
