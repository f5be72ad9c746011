/**
 * `FileUploadService`: validation of an upload, the storage path it gets, and the metadata row
 * kept for it in the `Files` table, with ownership-scoped soft delete, update and listings.
 * Writing and removing the file on disk are outcomes passed in, not modelled.
 */
module FileUploadService {
  import opened Primitives
  import opened Text
  import opened Results
  import opened Models
  import opened MappingProfiles

  const UploadBasePath := "Uploads"
  const DefaultMaxFileSize: Int32 := 5 * 1024 * 1024
  const NotFoundOrDenied := "File not found or access denied."
  const MissingIdForUpdate := "File ID must be provided for update."
  const UploadErrorPrefix := "An error occurred during file upload: "

  /** One entry of `AllowedExtensions`: a category name and its extensions. */
  datatype ExtensionGroup = ExtensionGroup(category: string, extensions: seq<string>)

  /** `FileUploadSettings`; the dictionary is its entries in enumeration order. */
  datatype FileUploadSettings = FileUploadSettings(maxFileSize: Int32, allowedExtensions: seq<ExtensionGroup>)

  const DefaultSettings := FileUploadSettings(DefaultMaxFileSize, [])

  /** What the service reads of an `IBrowserFile`. */
  datatype BrowserFile = BrowserFile(name: string, size: int)

  /**
   * How creating the user's directory, opening the target file and copying into it ended.
   * `DiskError` is a failure of the directory or of the `FileStream` constructor, both of which
   * come before `OpenReadStream`. A copy cannot fail once `OpenReadStream` has thrown, because it
   * never starts.
   */
  datatype DiskOutcome = DiskOk | DiskError(message: string)

  // ---------------------------------------------------------------- extensions

  /** Position of the last '.' or '/' before `i`, or -1. */
  function LastMark(path: string, i: nat): (k: int)
    requires i <= |path|
    ensures -1 <= k < i
    ensures k >= 0 ==> path[k] == '.' || path[k] == '/'
    ensures forall j :: k < j < i ==> path[j] != '.' && path[j] != '/'
  {
    if i == 0 then -1
    else if path[i - 1] == '.' || path[i - 1] == '/' then i - 1
    else LastMark(path, i - 1)
  }

  /** `k` is a '.' of the last path segment, not its last character, with no '.' after it. */
  predicate ExtensionStart(path: string, k: int) {
    0 <= k < |path| - 1 && path[k] == '.' && forall j :: k < j < |path| ==> path[j] != '.' && path[j] != '/'
  }

  /**
   * `Path.GetExtension` with '/' as the only directory separator: from the last '.' of the
   * last path segment to the end, or empty when there is no such '.' or it ends the name.
   */
  function GetExtension(path: string): (e: string)
    ensures |e| <= |path|
    ensures e == "" || (|e| >= 2 && e[0] == '.' && path[|path| - |e|..] == e)
    ensures forall j :: 1 <= j < |e| ==> e[j] != '.' && e[j] != '/'
    ensures '.' !in path ==> e == ""
    ensures e != "" <==> exists k :: ExtensionStart(path, k)
    ensures forall k :: ExtensionStart(path, k) ==> e == path[k..]
  {
    var m := LastMark(path, |path|);
    assert forall k :: ExtensionStart(path, k) ==> k == m;
    if m >= 0 && path[m] == '.' && m != |path| - 1 then
      assert ExtensionStart(path, m);
      path[m..]
    else ""
  }

  lemma ExtensionExamples()
    ensures GetExtension("cv.PDF") == ".PDF"
    ensures GetExtension("archive.tar.gz") == ".gz"
  {
    assert ExtensionStart("cv.PDF", 2);
    assert ExtensionStart("archive.tar.gz", 11);
  }

  lemma NoExtensionExamples()
    ensures GetExtension("README") == ""
    ensures GetExtension("name.") == ""
    ensures GetExtension("dir.d/file") == ""
  {
    assert LastMark("dir.d/file", 10) == 5;
    assert LastMark("name.", 5) == 4;
  }

  /** Lower-case, then a leading '.' when missing. */
  function NormalizeExtension(e: string): (n: string)
    ensures |n| >= 1 && n[0] == '.'
    ensures LowerInvariant(n) == n
    ensures n == LowerInvariant(e) || n == "." + LowerInvariant(e)
    ensures StartsWith(LowerInvariant(e), ".") ==> n == LowerInvariant(e)
    ensures !StartsWith(LowerInvariant(e), ".") ==> n == "." + LowerInvariant(e)
  {
    var lower := LowerInvariant(e);
    LowerIdempotent(e);
    var n := if StartsWith(lower, ".") then lower else "." + lower;
    assert LowerInvariant(n) == n by {
      if !StartsWith(lower, ".") {
        assert forall i :: 1 <= i < |n| ==> n[i] == lower[i - 1];
      }
    }
    n
  }

  lemma LowerIdempotent(s: string)
    ensures LowerInvariant(LowerInvariant(s)) == LowerInvariant(s)
  {
  }

  /** `allowedExts.Contains(e, StringComparer.OrdinalIgnoreCase)`. */
  predicate InGroup(extensions: seq<string>, e: string) {
    exists x :: 0 <= x < |extensions| && EqualsIgnoreCase(extensions[x], e)
  }

  /** Some group lists the normalised extension, ignoring case. */
  predicate ExtensionAllowed(groups: seq<ExtensionGroup>, e: string) {
    exists g :: 0 <= g < |groups| && InGroup(groups[g].extensions, NormalizeExtension(e))
  }

  /** The allow-list ignores case: an extension and its lower-case form are treated alike. */
  lemma AllowedIgnoresCase(groups: seq<ExtensionGroup>, e: string)
    ensures ExtensionAllowed(groups, e) <==> ExtensionAllowed(groups, LowerInvariant(e))
  {
    LowerIdempotent(e);
    assert NormalizeExtension(e) == NormalizeExtension(LowerInvariant(e));
  }

  /** The leading '.' is optional: `png` is allowed exactly when `.png` is. */
  lemma AllowedWithOrWithoutDot(groups: seq<ExtensionGroup>, e: string)
    requires !StartsWith(e, ".")
    ensures ExtensionAllowed(groups, e) <==> ExtensionAllowed(groups, "." + e)
  {
    var d := "." + e;
    assert LowerInvariant(d) == "." + LowerInvariant(e) by {
      assert forall i :: 1 <= i < |d| ==> d[i] == e[i - 1];
    }
    assert NormalizeExtension(d) == NormalizeExtension(e);
  }

  /** An empty allow-list, as in the default settings, rejects every extension. */
  lemma DefaultSettingsRejectAll(e: string)
    ensures !ExtensionAllowed(DefaultSettings.allowedExtensions, e)
  {
  }

  // ---------------------------------------------------------------- paths

  /** `Path.Combine("Uploads", userId, fileId + ext)` with back-slashes turned into '/'. */
  function StoragePath(userId: Guid, fileId: Guid, ext: string): string {
    ReplaceChar(UploadBasePath + "/" + GuidString(userId) + "/" + GuidString(fileId) + ext, '\\', "/")
  }

  /** The path is `Uploads/<userId>/<fileId><ext>` and uses forward slashes only. */
  lemma StoragePathShape(userId: Guid, fileId: Guid, ext: string)
    ensures StoragePath(userId, fileId, ext)
      == "Uploads/" + GuidString(userId) + "/" + GuidString(fileId) + ReplaceChar(ext, '\\', "/")
    ensures '\\' !in StoragePath(userId, fileId, ext)
    ensures '\\' !in ext ==> StoragePath(userId, fileId, ext) == "Uploads/" + GuidString(userId) + "/" + GuidString(fileId) + ext
  {
    var u, f := GuidString(userId), GuidString(fileId);
    var prefix := "Uploads/" + u + "/" + f;
    assert '\\' !in prefix by {
      assert forall c :: c in prefix ==> c in "Uploads/" || c in u || c in "/" || c in f;
    }
    assert UploadBasePath + "/" + u + "/" + f + ext == prefix + ext;
    ReplaceCharConcat(prefix, ext, '\\', "/");
    ReplaceCharRemoves(prefix + ext, '\\', "/");
  }

  // ---------------------------------------------------------------- rows

  // `FileIds` and `ReplaceFile` mirror `ContactIds` and `ReplaceById` of the contact table.

  function FileIds(s: seq<Files>): (r: seq<Guid>)
    ensures |r| == |s| && forall i :: 0 <= i < |s| ==> r[i] == s[i].id
  {
    seq(|s|, i requires 0 <= i < |s| => s[i].id)
  }

  predicate DistinctIds(s: seq<Files>) {
    forall i, j :: 0 <= i < j < |s| ==> s[i].id != s[j].id
  }

  /** The caller's row with key `id`, deleted or not. */
  function FindOwned(s: seq<Files>, id: Guid, userId: Guid): (r: Option<Files>)
    ensures r.Some? ==> r.value in s && r.value.id == id && r.value.userId == userId
    ensures r.None? <==> forall f :: f in s ==> f.id != id || f.userId != userId
  {
    if |s| == 0 then Option.None
    else if s[0].id == id && s[0].userId == userId then Some(s[0])
    else FindOwned(s[1..], id, userId)
  }

  /** Overwrites the row with key `id`. */
  function ReplaceFile(s: seq<Files>, id: Guid, row: Files): (r: seq<Files>)
    ensures |r| == |s|
    ensures forall i :: 0 <= i < |s| ==> r[i] == (if s[i].id == id then row else s[i])
  {
    seq(|s|, i requires 0 <= i < |s| => if s[i].id == id then row else s[i])
  }

  lemma ReplaceKeepsIds(s: seq<Files>, id: Guid, row: Files)
    requires row.id == id
    ensures FileIds(ReplaceFile(s, id, row)) == FileIds(s)
  {
    assert forall i :: 0 <= i < |s| ==> FileIds(ReplaceFile(s, id, row))[i] == FileIds(s)[i];
  }

  /** The row an accepted upload adds. */
  function NewRow(userId: Guid, file: BrowserFile, metadata: FileCreationDto, fileId: Guid, ext: string, now: Timestamp): Files {
    Files(fileId, userId, file.name, metadata.fileType, StoragePath(userId, fileId, ext),
      metadata.description, false, Option.None, now, now)
  }

  function TooLarge(settings: FileUploadSettings, file: BrowserFile): bool {
    settings.maxFileSize > 0 && file.size > settings.maxFileSize
  }

  function SizeMessage(settings: FileUploadSettings, file: BrowserFile): string
    requires settings.maxFileSize > 0
  {
    "File: " + file.name + " exceeds the maximum allowed file size (" + NatToString(settings.maxFileSize) + " bytes)."
  }

  function TypeMessage(file: BrowserFile, ext: string): string {
    "File: " + file.name + ", File type not allowed (" + ext + ")"
  }

  /** The soft-delete stamp. */
  function SoftDelete(f: Files, now: Timestamp): (g: Files)
    ensures g.isDeleted && g.deletedAt == Some(now)
    ensures g == f.(isDeleted := true, deletedAt := Some(now))
  {
    f.(isDeleted := true, deletedAt := Some(now))
  }

  /**
   * `DeleteAsync` on the table: the result and the new rows. A key the caller does not own
   * gives the same failure as a missing one; an already deleted row is left as it is.
   */
  function DeleteStep(s: seq<Files>, userId: Guid, dto: FileDto, now: Timestamp): (out: (EmptyResult, seq<Files>))
    ensures FindOwned(s, dto.id, userId).None? ==> out == (EmptyFailure(NotFoundOrDenied), s)
    ensures FindOwned(s, dto.id, userId).Some? ==> out.0 == EmptySuccess()
    ensures FindOwned(s, dto.id, userId).Some? && FindOwned(s, dto.id, userId).value.isDeleted ==> out.1 == s
    ensures |out.1| == |s|
    ensures forall i :: 0 <= i < |s| && s[i].id != dto.id ==> out.1[i] == s[i]
  {
    match FindOwned(s, dto.id, userId)
    case None => (EmptyFailure(NotFoundOrDenied), s)
    case Some(f) =>
      if f.isDeleted then (EmptySuccess(), s)
      else (EmptySuccess(), ReplaceFile(s, dto.id, SoftDelete(f, now)))
  }

  /**
   * On a table with distinct keys, the first delete of an owned live row flags that row deleted
   * at `now` and changes none of its other members.
   */
  lemma FirstDeleteMarks(s: seq<Files>, userId: Guid, dto: FileDto, now: Timestamp, i: int)
    requires DistinctIds(s) && 0 <= i < |s|
    requires s[i].id == dto.id && s[i].userId == userId && !s[i].isDeleted
    ensures DeleteStep(s, userId, dto, now).0 == EmptySuccess()
    ensures DeleteStep(s, userId, dto, now).1[i] == s[i].(isDeleted := true, deletedAt := Some(now))
  {
    var f := FindOwned(s, dto.id, userId);
    assert s[i] in s;
    var j :| 0 <= j < |s| && s[j] == f.value;
    assert j == i;
  }

  /** Deleting again, at any later instant, changes nothing and still succeeds. */
  lemma DeleteIdempotent(s: seq<Files>, userId: Guid, dto: FileDto, now: Timestamp, later: Timestamp)
    requires DistinctIds(s)
    ensures var (r1, s1) := DeleteStep(s, userId, dto, now);
      DeleteStep(s1, userId, dto, later) == (r1, s1)
  {
    var (r1, s1) := DeleteStep(s, userId, dto, now);
    match FindOwned(s, dto.id, userId)
    case None =>
    case Some(f) =>
      if !f.isDeleted {
        var g := SoftDelete(f, now);
        var j :| 0 <= j < |s| && s[j] == f;
        assert s1[j] == g;
        FindOwnedUnique(s1, j, dto.id, userId);
      }
  }

  /** On distinct keys, the owned row with a given key is the one at its position. */
  lemma FindOwnedUnique(s: seq<Files>, j: int, id: Guid, userId: Guid)
    requires 0 <= j < |s| && s[j].id == id && s[j].userId == userId
    requires forall i :: 0 <= i < |s| && i != j ==> s[i].id != id
    ensures FindOwned(s, id, userId) == Some(s[j])
  {
    var f := FindOwned(s, id, userId);
    assert s[j] in s;
    var k :| 0 <= k < |s| && s[k] == f.value;
  }

  /**
   * Metadata update of a found row: `Name` and `Description` only when the incoming value is
   * neither null nor empty, `Type` always, `UpdatedAt` stamped, and nothing else.
   */
  function ApplyMetadata(f: Files, dto: FileDto, now: Timestamp): (g: Files)
    ensures g.name == (if |dto.name| > 0 then dto.name else f.name)
    ensures g.description == (if dto.description.Some? && |dto.description.value| > 0 then dto.description else f.description)
    ensures g.fileType == dto.fileType && g.updatedAt == now
    ensures g.id == f.id && g.userId == f.userId && g.storagePath == f.storagePath
    ensures g.isDeleted == f.isDeleted && g.deletedAt == f.deletedAt && g.uploadedAt == f.uploadedAt
  {
    var named := if |dto.name| > 0 then f.(name := dto.name) else f;
    var described := match dto.description
      case Some(d) => if |d| > 0 then named.(description := dto.description) else named
      case None => named;
    described.(fileType := dto.fileType, updatedAt := now)
  }

  /** Only live rows of the caller can be updated. */
  function FindActiveOwned(s: seq<Files>, id: Guid, userId: Guid): (r: Option<Files>)
    ensures r.Some? ==> r.value in s && r.value.id == id && r.value.userId == userId && !r.value.isDeleted
    ensures r.None? <==> forall f :: f in s ==> f.id != id || f.userId != userId || f.isDeleted
  {
    if |s| == 0 then Option.None
    else if s[0].id == id && s[0].userId == userId && !s[0].isDeleted then Some(s[0])
    else FindActiveOwned(s[1..], id, userId)
  }

  /** `UpdateAsync` on the table: the result and the new rows. */
  function UpdateStep(s: seq<Files>, userId: Guid, dto: FileDto, now: Timestamp): (out: (Result<FileDto, string>, seq<Files>))
    ensures dto.id == EmptyGuid ==> out == (Failure(MissingIdForUpdate), s)
    ensures dto.id != EmptyGuid && FindActiveOwned(s, dto.id, userId).None? ==> out == (Failure(NotFoundOrDenied), s)
    ensures out.0.IsSuccess() ==>
      exists f :: f in s && f.id == dto.id && f.userId == userId && !f.isDeleted
        && out.0.Value() == FileToDto(ApplyMetadata(f, dto, now))
        && out.1 == ReplaceFile(s, dto.id, ApplyMetadata(f, dto, now))
    ensures dto.id != EmptyGuid && FindActiveOwned(s, dto.id, userId).Some? ==>
      var g := ApplyMetadata(FindActiveOwned(s, dto.id, userId).value, dto, now);
      out == (Success(FileToDto(g)), ReplaceFile(s, dto.id, g))
    ensures |out.1| == |s|
    ensures forall i :: 0 <= i < |s| && s[i].id != dto.id ==> out.1[i] == s[i]
  {
    if dto.id == EmptyGuid then (Failure(MissingIdForUpdate), s)
    else match FindActiveOwned(s, dto.id, userId)
      case None => (Failure(NotFoundOrDenied), s)
      case Some(f) =>
        var g := ApplyMetadata(f, dto, now);
        (Success(FileToDto(g)), ReplaceFile(s, dto.id, g))
  }

  /** A successful update keeps the owner, the storage path and the deletion state of every row. */
  lemma UpdateKeepsProtectedMembers(s: seq<Files>, userId: Guid, dto: FileDto, now: Timestamp, i: int)
    requires 0 <= i < |s| && DistinctIds(s)
    ensures var t := UpdateStep(s, userId, dto, now).1;
      t[i].id == s[i].id && t[i].userId == s[i].userId && t[i].storagePath == s[i].storagePath
      && t[i].isDeleted == s[i].isDeleted && t[i].deletedAt == s[i].deletedAt && t[i].uploadedAt == s[i].uploadedAt
  {
    var out := UpdateStep(s, userId, dto, now);
    if out.0.IsSuccess() && s[i].id == dto.id {
      var f :| f in s && f.id == dto.id && f.userId == userId && !f.isDeleted
        && out.1 == ReplaceFile(s, dto.id, ApplyMetadata(f, dto, now));
      var j :| 0 <= j < |s| && s[j] == f;
      assert j == i;
    }
  }

  // ---------------------------------------------------------------- listings

  /** The caller's live rows, in table order. */
  function ActiveOf(s: seq<Files>, userId: Guid): (r: seq<Files>)
    ensures forall f :: f in r <==> f in s && f.userId == userId && !f.isDeleted
  {
    if |s| == 0 then []
    else (if s[0].userId == userId && !s[0].isDeleted then [s[0]] else []) + ActiveOf(s[1..], userId)
  }

  function FileDtos(s: seq<Files>): (r: seq<FileDto>)
    ensures |r| == |s| && forall i :: 0 <= i < |s| ==> r[i] == FileToDto(s[i])
  {
    seq(|s|, i requires 0 <= i < |s| => FileToDto(s[i]))
  }

  /** `GetByUserIdAsync`: exactly the caller's rows that are not soft-deleted. */
  function GetByUserId(s: seq<Files>, userId: Guid): (r: Result<seq<FileDto>, string>)
    ensures r.IsSuccess()
    ensures forall d :: d in r.Value() <==> exists f :: f in s && f.userId == userId && !f.isDeleted && d == FileToDto(f)
  {
    var rows := ActiveOf(s, userId);
    var dtos := FileDtos(rows);
    assert forall d :: d in dtos <==> exists i :: 0 <= i < |rows| && d == FileToDto(rows[i]);
    Success(dtos)
  }

  /** `GetFilesByUserIdAndTypeAsync`: the caller's live rows of type `t`. */
  function GetByUserIdAndType(s: seq<Files>, userId: Guid, t: FileType): (r: Result<seq<FileDto>, string>)
    ensures r.IsSuccess()
    ensures forall d :: d in r.Value() <==>
      exists f :: f in s && f.userId == userId && !f.isDeleted && f.fileType == t && d == FileToDto(f)
  {
    var rows := OfType(ActiveOf(s, userId), t);
    var dtos := FileDtos(rows);
    assert forall d :: d in dtos <==> exists i :: 0 <= i < |rows| && d == FileToDto(rows[i]);
    Success(dtos)
  }

  function OfType(s: seq<Files>, t: FileType): (r: seq<Files>)
    ensures forall f :: f in r <==> f in s && f.fileType == t
  {
    if |s| == 0 then []
    else (if s[0].fileType == t then [s[0]] else []) + OfType(s[1..], t)
  }

  /** The by-type listing is the by-user listing narrowed to one type. */
  lemma ByTypeNarrowsByUser(s: seq<Files>, userId: Guid, t: FileType)
    ensures forall d :: d in GetByUserIdAndType(s, userId, t).Value() <==>
      d in GetByUserId(s, userId).Value() && d.fileType == t
  {
  }

  // ---------------------------------------------------------------- the service

  class FileStore {
    const settings: FileUploadSettings
    var files: seq<Files>

    ghost predicate Valid()
      reads this
    {
      DistinctIds(files)
    }

    constructor (settings: FileUploadSettings)
      ensures this.settings == settings && files == [] && Valid()
    {
      this.settings := settings;
      files := [];
    }

    /** `IsExtensionAllowed`: the first group listing the normalised extension answers yes. */
    method IsExtensionAllowed(fileExtension: string) returns (allowed: bool)
      ensures allowed == ExtensionAllowed(settings.allowedExtensions, fileExtension)
    {
      var normalized := LowerInvariant(fileExtension);
      if !StartsWith(normalized, ".") {
        normalized := "." + normalized;
      }
      assert normalized == NormalizeExtension(fileExtension);
      var groups := settings.allowedExtensions;
      var i := 0;
      while i < |groups|
        invariant 0 <= i <= |groups|
        invariant forall g :: 0 <= g < i ==> !InGroup(groups[g].extensions, normalized)
      {
        if InGroup(groups[i].extensions, normalized) {
          return true;
        }
        i := i + 1;
      }
      return false;
    }

    /**
     * `AddAsync`. The size check comes first, then the extension check; an accepted upload
     * whose directory or target file cannot be created adds nothing. The file is read through `OpenReadStream` with the
     * configured limit as its bound, which throws `readLimitError` when the size exceeds it;
     * the size check skips a limit of zero or less, so only such a limit reaches that branch.
     * Otherwise exactly one row is appended.
     */
    method Add(userId: Guid, file: BrowserFile, metadata: FileCreationDto, fileId: Guid, disk: DiskOutcome,
               readLimitError: string, now: Timestamp)
      returns (r: Result<FileDto, string>)
      requires Valid() && fileId !in FileIds(files)
      modifies this
      ensures Valid()
      ensures var ext := LowerInvariant(GetExtension(file.name));
        if TooLarge(settings, file) then
          r == Failure(SizeMessage(settings, file)) && files == old(files)
        else if !ExtensionAllowed(settings.allowedExtensions, ext) then
          r == Failure(TypeMessage(file, ext)) && files == old(files)
        else if disk.DiskError? then
          r == Failure(UploadErrorPrefix + disk.message) && files == old(files)
        else if file.size > settings.maxFileSize then
          r == Failure(UploadErrorPrefix + readLimitError) && files == old(files)
        else
          var row := NewRow(userId, file, metadata, fileId, ext, now);
          r == Success(FileToDto(row)) && files == old(files) + [row]
    {
      var fileExtension := LowerInvariant(GetExtension(file.name));
      if settings.maxFileSize > 0 && file.size > settings.maxFileSize {
        return Failure(SizeMessage(settings, file));
      }
      var allowed := IsExtensionAllowed(fileExtension);
      if !allowed {
        return Failure(TypeMessage(file, fileExtension));
      }
      if disk.DiskError? {
        return Failure(UploadErrorPrefix + disk.message);
      }
      if file.size > settings.maxFileSize {
        return Failure(UploadErrorPrefix + readLimitError);
      }
      var row := NewRow(userId, file, metadata, fileId, fileExtension, now);
      files := files + [row];
      return Success(FileToDto(row));
    }

    /** `DeleteAsync`; whether removing the file from disk worked does not matter. */
    method Delete(userId: Guid, dto: FileDto, diskRemoval: DiskOutcome, now: Timestamp) returns (r: EmptyResult)
      requires Valid()
      modifies this
      ensures Valid()
      ensures (r, files) == DeleteStep(old(files), userId, dto, now)
    {
      var found := FindOwned(files, dto.id, userId);
      if found.None? {
        return EmptyFailure(NotFoundOrDenied);
      }
      var f := found.value;
      if !f.isDeleted {
        ReplaceKeepsIds(files, dto.id, SoftDelete(f, now));
        files := ReplaceFile(files, dto.id, SoftDelete(f, now));
      }
      return EmptySuccess();
    }

    /** `UpdateAsync`. */
    method Update(userId: Guid, dto: FileDto, now: Timestamp) returns (r: Result<FileDto, string>)
      requires Valid()
      modifies this
      ensures Valid()
      ensures (r, files) == UpdateStep(old(files), userId, dto, now)
    {
      if dto.id == EmptyGuid {
        return Failure(MissingIdForUpdate);
      }
      var found := FindActiveOwned(files, dto.id, userId);
      if found.None? {
        return Failure(NotFoundOrDenied);
      }
      var g := ApplyMetadata(found.value, dto, now);
      ReplaceKeepsIds(files, dto.id, g);
      files := ReplaceFile(files, dto.id, g);
      return Success(FileToDto(g));
    }
  }

  /** After an accepted upload the caller's listing gains exactly the new row. */
  lemma UploadedRowListed(s: seq<Files>, row: Files, userId: Guid)
    requires row.userId == userId && !row.isDeleted
    ensures forall d :: d in GetByUserId(s + [row], userId).Value() <==>
      d in GetByUserId(s, userId).Value() || d == FileToDto(row)
  {
    forall f ensures f in s + [row] <==> f in s || f == row {
    }
  }
}
