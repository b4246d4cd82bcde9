/**
 * The file-name and MIME helpers of src/utils/fileUtils.ts. Reading a file
 * into a data URL and triggering a download are browser I/O and are not part
 * of this module.
 */
module FileUtils {
  import opened Text

  /** The parts of a browser `File` that the helpers look at. */
  datatype FileInfo = FileInfo(name: string, mimeType: string)

  /** The MIME types an upload may declare. */
  const ValidMimeTypes: seq<string> := ["application/pdf", "image/jpeg", "image/jpg", "image/png"]

  /** `getFileType`: the last piece of the name split at '.', lower-cased.
      `split` always yields at least one piece, so `pop` never comes back
      empty-handed and the `|| ''` fallback only ever maps '' to ''. */
  function GetFileType(fileName: string): (ext: string)
    ensures ext == ToLower(fileName[LastIndexOf(fileName, '.') + 1..])
  {
    LastPieceAfterLastSeparator(fileName, '.');
    ToLower(Last(Split(fileName, '.')))
  }

  /** `isValidFileType`: membership of the declared MIME type in the
      allow-list, compared exactly (case-sensitive). */
  predicate IsValidFileType(file: FileInfo) {
    file.mimeType in ValidMimeTypes
  }

  /** The extension never contains a '.'. */
  lemma FileTypeHasNoDot(fileName: string)
    ensures '.' !in GetFileType(fileName)
  {
    var i := LastIndexOf(fileName, '.');
    var tail := fileName[i + 1..];
    forall k | 0 <= k < |tail| ensures tail[k] != '.' {
      assert tail[k] == fileName[i + 1 + k];
    }
    ToLowerKeepsNonLetter(tail, '.');
    assert GetFileType(fileName) == ToLower(tail);
  }

  /** The extension is empty exactly when the name is empty or ends in '.'. */
  lemma FileTypeEmptyIff(fileName: string)
    ensures GetFileType(fileName) == [] <==> fileName == [] || fileName[|fileName| - 1] == '.'
  {
  }

  /** A name without any '.' is its own extension, lower-cased. */
  lemma FileTypeOfDotlessName(fileName: string)
    requires '.' !in fileName
    ensures GetFileType(fileName) == ToLower(fileName)
  {
    assert fileName[0..] == fileName;
  }

  /** Taking the extension of an extension changes nothing. */
  lemma FileTypeIdempotent(fileName: string)
    ensures GetFileType(GetFileType(fileName)) == GetFileType(fileName)
  {
    var ext := GetFileType(fileName);
    FileTypeHasNoDot(fileName);
    FileTypeOfDotlessName(ext);
    ToLowerIdempotent(fileName[LastIndexOf(fileName, '.') + 1..]);
  }

  /** The extension of `stem.ext` is `ext`, lower-cased, whatever the stem. */
  lemma FileTypeOfLastSegment(stem: string, ext: string)
    requires '.' !in ext
    ensures GetFileType(stem + "." + ext) == ToLower(ext)
  {
    var name := stem + "." + ext;
    var i := LastIndexOf(name, '.');
    assert name[|stem|] == '.';
    forall j | |stem| < j < |name| ensures name[j] != '.' {
      assert name[j] == ext[j - |stem| - 1];
    }
    assert i == |stem|;
    assert name[i + 1..] == ext;
  }

  /** The verdict depends on the declared MIME type alone, never on the name,
      and it accepts exactly the four listed types. */
  lemma ValidFileTypeByMimeOnly(file: FileInfo, other: FileInfo)
    requires file.mimeType == other.mimeType
    ensures IsValidFileType(file) == IsValidFileType(other)
    ensures IsValidFileType(file) <==>
      file.mimeType == "application/pdf" || file.mimeType == "image/jpeg" ||
      file.mimeType == "image/jpg" || file.mimeType == "image/png"
  {
  }

  /** The comparison is case-sensitive: an upper-case spelling is refused. */
  lemma ValidFileTypeIsCaseSensitive()
    ensures !IsValidFileType(FileInfo("scan.pdf", "APPLICATION/PDF"))
    ensures IsValidFileType(FileInfo("scan.pdf", "application/pdf"))
  {
    assert "APPLICATION/PDF"[0] != "application/pdf"[0];
    assert "APPLICATION/PDF" !in ValidMimeTypes;
  }
}
