/**
 * The file service: an upload directory (the set of paths present on disk)
 * and the File collection (a map from record id to record), with the four
 * handlers behind the authenticated file routes. Every lookup is scoped to
 * the caller as owner; a record of someone else's is answered exactly like a
 * missing one.
 */
module FileController {
  import opened Wrappers
  import Text
  import NodePath
  import FileModel
  import AuthMiddleware

  type FileId = FileModel.FileId
  type FileRecord = FileModel.FileRecord
  type Identity = AuthMiddleware.Identity

  /** The multipart parser's size limit: 50 MiB. */
  const MaxFileSize: nat := 50 * 1024 * 1024

  // ---------------------------------------------------------------------------
  // Stored names

  /** `Math.round(r * 1e9)` for `r = Math.random()`. */
  function RandomSuffix(r: real): (n: nat)
    requires 0.0 <= r < 1.0
    ensures n <= 1000000000
    ensures (n as real) - 0.5 <= r * 1000000000.0 < (n as real) + 0.5
  {
    (r * 1000000000.0 + 0.5).Floor
  }

  /** The disk name given to an upload: the original name with its extension cut off, a dash,
      the time, a dash, the random suffix, and the extension. */
  function StoredName(originalname: string, time: nat, random: real): string
    requires NodePath.NoSlash(originalname)
    requires 0.0 <= random < 1.0
  {
    var ext := NodePath.Extname(originalname);
    // the unique suffix is "time-random"
    NodePath.Basename(originalname, ext) + "-" + Text.Decimal(time) + "-" + Text.Decimal(RandomSuffix(random)) + ext
  }

  /** The stored name is the original name with "-time-random" inserted before its extension,
      and so ends with that extension. */
  lemma StoredNameInsertsSuffix(originalname: string, time: nat, random: real)
    requires NodePath.NoSlash(originalname)
    requires 0.0 <= random < 1.0
    ensures var ext := NodePath.Extname(originalname);
            var stem := originalname[..|originalname| - |ext|];
            && |ext| <= |originalname|
            && originalname == stem + ext
            && StoredName(originalname, time, random)
               == stem + "-" + Text.Decimal(time) + "-" + Text.Decimal(RandomSuffix(random)) + ext
  {
    var ext := NodePath.Extname(originalname);
    var b := NodePath.Basename(originalname, ext);
    NodePath.BasenameExtname(originalname);
    assert b == originalname[..|originalname| - |ext|] by {
      assert originalname == b + ext;
    }
  }

  /** The stored name is never blank, even for a blank original name: it holds a dash. */
  lemma StoredNameNotBlank(originalname: string, time: nat, random: real)
    requires NodePath.NoSlash(originalname)
    requires 0.0 <= random < 1.0
    ensures Text.Trim(StoredName(originalname, time, random)) != ""
  {
    var name := StoredName(originalname, time, random);
    StoredNameInsertsSuffix(originalname, time, random);
    var ext := NodePath.Extname(originalname);
    var stem := originalname[..|originalname| - |ext|];
    assert name[|stem|] == '-';
    assert !Text.IsJsWhitespace(name[|stem|]);
    Text.TrimEmptyIff(name);
  }

  /** No digit and no dash is a '/' or a '.'. */
  lemma DigitsHaveNoSeparator(s: string)
    requires forall i :: 0 <= i < |s| ==> '0' <= s[i] <= '9'
    ensures '/' !in s && '.' !in s
  {
  }

  /** The stored name has no '/', so it names a file directly inside the upload directory,
      and it keeps a non-empty original extension as its own extension. */
  lemma StoredNameKeepsExtension(originalname: string, time: nat, random: real)
    requires NodePath.NoSlash(originalname)
    requires 0.0 <= random < 1.0
    ensures NodePath.NoSlash(StoredName(originalname, time, random))
    ensures NodePath.Extname(originalname) != "" ==>
              NodePath.Extname(StoredName(originalname, time, random)) == NodePath.Extname(originalname)
  {
    var ext := NodePath.Extname(originalname);
    var t := Text.Decimal(time);
    var r := Text.Decimal(RandomSuffix(random));
    var stem := originalname[..|originalname| - |ext|];
    StoredNameInsertsSuffix(originalname, time, random);
    DigitsHaveNoSeparator(t);
    DigitsHaveNoSeparator(r);
    assert '/' !in stem && '/' !in ext by { assert originalname == stem + ext; }
    var prefix := stem + "-" + t + "-" + r;
    assert '/' !in prefix;
    if ext != "" {
      NodePath.ExtnameShape(originalname);
      NodePath.ExtnameOfSuffix(prefix, ext);
    }
  }

  /** `path.join(dir, name)` for a resolved directory and a slash-free name. */
  function JoinPath(dir: string, name: string): string {
    if dir == "/" then dir + name else dir + "/" + name
  }

  /** A directory as `path.resolve` returns it: absolute, no trailing slash unless the root, and
      no empty, "." or ".." segment. */
  predicate Resolved(dir: string) {
    && |dir| >= 1 && dir[0] == '/' && (dir == "/" || dir[|dir| - 1] != '/')
    && forall i :: 0 <= i < |dir| - 1 && dir[i] == '/' ==> NormalSegmentAt(dir, i + 1)
  }

  /** The segment starting at `j` is neither empty, nor ".", nor "..". */
  predicate NormalSegmentAt(dir: string, j: nat)
    requires j < |dir|
  {
    && dir[j] != '/'
    && !(dir[j] == '.' && (j + 1 == |dir| || dir[j + 1] == '/'))
    && !(dir[j] == '.' && j + 1 < |dir| && dir[j + 1] == '.' && (j + 2 == |dir| || dir[j + 2] == '/'))
  }

  // ---------------------------------------------------------------------------
  // Requests and responses

  /** What the multipart parser makes of the request body. A part's `originalname` is the
      client's file name with any directory part removed, "." and ".." becoming empty. */
  datatype Multipart =
    | ParserError                                            // any failure it reports besides the size limit
    | NoFile                                                 // no "file" part
    | FilePart(originalname: string, mimetype: string, size: nat)

  /** A request the parser finds no file in: no "file" part, or one whose name is empty, which
      the parser drains without writing. */
  predicate Skipped(part: Multipart) {
    part.NoFile? || (part.FilePart? && part.originalname == "")
  }

  /** A part the parser writes: it has a name and fits within the size limit. */
  predicate Fits(part: Multipart) {
    part.FilePart? && part.originalname != "" && part.size <= MaxFileSize
  }

  /** `req.file` after the parser has written the part to disk. */
  datatype StoredFile = StoredFile(originalname: string, mimetype: string, filename: string, path: string, size: nat)

  datatype Received = ReceiveFailed | NothingReceived | ReceivedFile(file: StoredFile)

  /** The upload response body's `file`. */
  datatype UploadedSummary = UploadedSummary(id: FileId, filename: string, originalName: string, size: int, uploadTime: int)

  /** A listed record: what remains after `select("-path -owner -shareLink -shareExpiry -sharePassword")`. */
  datatype ListedFile = ListedFile(id: FileId, filename: string, originalName: string, size: int,
                                   mimeType: string, uploadTime: int)

  datatype UploadResponse = UploadRejected(status: int, message: string) | Created(file: UploadedSummary)
  datatype ListResponse = ListRejected(status: int, message: string) | Listing(files: seq<ListedFile>)
  datatype DownloadResponse = DownloadRejected(status: int, message: string)
                            | Attachment(contentType: string, contentDisposition: string, path: string)
  datatype DeleteResponse = DeleteRejected(status: int, message: string) | Deleted

  function Summarize(id: FileId, r: FileRecord): ListedFile {
    ListedFile(id, r.filename, r.originalName, r.size, r.mimeType, r.uploadTime)
  }

  /** The Content-Disposition value announcing an attachment under the original name. */
  function Disposition(originalName: string): string {
    "attachment; filename=\"" + originalName + "\""
  }

  /** The characters Node accepts in a header value; `setHeader` throws on any other. */
  predicate HeaderCharOk(c: char) {
    c == '\t' || (' ' <= c <= '~') || ('\U{80}' <= c <= '\U{FF}')
  }

  /** A header value `setHeader` accepts. */
  predicate HeaderValueOk(s: string) {
    forall i :: 0 <= i < |s| ==> HeaderCharOk(s[i])
  }

  /** A concatenation is an acceptable header value exactly when both parts are. */
  lemma HeaderValueOkConcat(a: string, b: string)
    ensures HeaderValueOk(a + b) <==> HeaderValueOk(a) && HeaderValueOk(b)
  {
    var ab := a + b;
    if HeaderValueOk(ab) {
      forall i | 0 <= i < |a| ensures HeaderCharOk(a[i]) {
        assert a[i] == ab[i];
      }
      forall i | 0 <= i < |b| ensures HeaderCharOk(b[i]) {
        assert b[i] == ab[|a| + i];
      }
    }
    if HeaderValueOk(a) && HeaderValueOk(b) {
      forall i | 0 <= i < |ab| ensures HeaderCharOk(ab[i]) {
        if i < |a| { assert ab[i] == a[i]; } else { assert ab[i] == b[i - |a|]; }
      }
    }
  }

  lemma DispositionHeaderOk(originalName: string)
    ensures HeaderValueOk(Disposition(originalName)) <==> HeaderValueOk(originalName)
  {
    var prefix := "attachment; filename=\"";
    assert Disposition(originalName) == prefix + originalName + "\"";
    HeaderValueOkConcat(prefix + originalName, "\"");
    HeaderValueOkConcat(prefix, originalName);
    assert HeaderValueOk(prefix);
  }

  // ---------------------------------------------------------------------------
  // Listing order

  predicate SortedByTimeDesc(s: seq<ListedFile>) {
    forall i, j :: 0 <= i < j < |s| ==> s[i].uploadTime >= s[j].uploadTime
  }

  predicate DistinctIds(s: seq<ListedFile>) {
    forall i, j :: 0 <= i < j < |s| ==> s[i].id != s[j].id
  }

  /** Insert `x` before the first entry uploaded no later than it, keeping newest first. */
  function InsertByTime(s: seq<ListedFile>, x: ListedFile): (r: seq<ListedFile>)
    ensures multiset(r) == multiset(s) + multiset{x}
    ensures |r| == |s| + 1
    ensures forall y :: y in r <==> y == x || y in s
  {
    if s == [] || s[0].uploadTime <= x.uploadTime then [x] + s
    else
      assert s == [s[0]] + s[1..];
      [s[0]] + InsertByTime(s[1..], x)
  }

  /** Inserting keeps a newest-first list newest first. */
  lemma {:induction false} InsertByTimeSorted(s: seq<ListedFile>, x: ListedFile)
    requires SortedByTimeDesc(s)
    ensures SortedByTimeDesc(InsertByTime(s, x))
  {
    if s != [] && s[0].uploadTime > x.uploadTime {
      var tail := InsertByTime(s[1..], x);
      InsertByTimeSorted(s[1..], x);
      var r := [s[0]] + tail;
      forall j | 0 < j < |r| ensures r[0].uploadTime >= r[j].uploadTime {
        assert r[j] == tail[j - 1];
        if r[j] != x {
          assert r[j] in s[1..];
        }
      }
      assert SortedByTimeDesc(tail);
    }
  }

  /** Inserting an entry whose id is new keeps the ids distinct. */
  lemma {:induction false} InsertByTimeDistinct(s: seq<ListedFile>, x: ListedFile)
    requires DistinctIds(s) && forall y :: y in s ==> y.id != x.id
    ensures DistinctIds(InsertByTime(s, x))
  {
    if s != [] && s[0].uploadTime > x.uploadTime {
      var tail := InsertByTime(s[1..], x);
      InsertByTimeDistinct(s[1..], x);
      var r := [s[0]] + tail;
      forall j | 0 < j < |r| ensures r[0].id != r[j].id {
        assert r[j] == tail[j - 1];
        if r[j] != x {
          assert r[j] in s[1..];
        }
      }
    }
  }

  // ---------------------------------------------------------------------------
  // The service

  class FileService {
    /** The File collection. */
    var catalog: map<FileId, FileRecord>
    /** The paths present in the upload directory. */
    var disk: set<string>
    /** The resolved upload directory. */
    const uploadDir: string

    ghost predicate Valid()
      reads this
    {
      FileModel.CatalogValid(catalog) && Resolved(uploadDir) && KeysCanonical(catalog)
    }

    /** Records are keyed by the ids the database generated: ObjectIds in lower-case hex. */
    static ghost predicate KeysCanonical(c: map<FileId, FileRecord>) {
      forall id :: id in c ==> FileModel.IsCanonicalId(id)
    }

    /** Every record's file is on disk. */
    ghost predicate Consistent()
      reads this
    {
      forall id :: id in catalog ==> catalog[id].path in disk
    }

    /** No two records name the same file. */
    ghost predicate DistinctPaths()
      reads this
    {
      forall a, b :: a in catalog && b in catalog && a != b ==> catalog[a].path != catalog[b].path
    }

    predicate Owns(caller: Identity, id: FileId)
      reads this
    {
      id in catalog && catalog[id].owner == caller.id
    }

    /** Where the parser writes an accepted part. */
    function StoredPath(part: Multipart, time: nat, random: real): string
      requires part.FilePart? && NodePath.NoSlash(part.originalname)
      requires 0.0 <= random < 1.0
    {
      JoinPath(uploadDir, StoredName(part.originalname, time, random))
    }

    /** The document the handler builds from `req.file` and the caller. */
    function UploadDraft(part: Multipart, time: nat, random: real, owner: string): FileModel.FileDraft
      requires part.FilePart? && NodePath.NoSlash(part.originalname)
      requires 0.0 <= random < 1.0
    {
      FileModel.FileDraft(
        Some(StoredName(part.originalname, time, random)), Some(part.originalname), Some(part.size),
        Some(part.mimetype), None, Some(StoredPath(part, time, random)), Some(owner))
    }

    /** The record built for an accepted part passes validation exactly when its original name
        and type are not blank and the caller has an id; the stored name and the path never
        fail. The record then holds the trimmed name and type, the size, the path and the
        caller as owner. */
    lemma UploadDraftValidates(part: Multipart, time: nat, random: real, owner: string, now: int)
      requires part.FilePart? && NodePath.NoSlash(part.originalname)
      requires 0.0 <= random < 1.0
      ensures var c := FileModel.Create(UploadDraft(part, time, random, owner), now);
              c.Ok? <==> Text.Trim(part.originalname) != "" && Text.Trim(part.mimetype) != "" && owner != ""
      ensures var c := FileModel.Create(UploadDraft(part, time, random, owner), now);
              c.Ok? ==>
                && c.value.originalName == Text.Trim(part.originalname)
                && c.value.mimeType == Text.Trim(part.mimetype)
                && c.value.size == part.size
                && c.value.path == StoredPath(part, time, random)
                && c.value.owner == owner
                && c.value.uploadTime == now
    {
      var name := StoredName(part.originalname, time, random);
      var path := StoredPath(part, time, random);
      StoredNameNotBlank(part.originalname, time, random);
      assert path != "";
      FileModel.CreateWithNameAndPath(name, part.originalname, part.size, part.mimetype, path, owner, now);
    }

    constructor (dir: string, records: map<FileId, FileRecord>, files: set<string>)
      requires Resolved(dir) && FileModel.CatalogValid(records) && KeysCanonical(records)
      ensures Valid() && uploadDir == dir && catalog == records && disk == files
    {
      uploadDir := dir;
      catalog := records;
      disk := files;
    }

    /** The multipart parser: it skips a part without a name, refuses a failed or oversized
        part (removing what it had written of it), and otherwise writes the part under its
        stored name. */
    method Receive(part: Multipart, time: nat, random: real) returns (r: Received)
      requires part.FilePart? ==> NodePath.NoSlash(part.originalname)
      requires 0.0 <= random < 1.0
      modifies this
      ensures catalog == old(catalog)
      ensures (part.ParserError? || (part.FilePart? && !Skipped(part) && !Fits(part))) <==> r == ReceiveFailed
      ensures Skipped(part) <==> r == NothingReceived
      ensures !Fits(part) ==> disk == old(disk)
      ensures Fits(part) ==>
                var path := StoredPath(part, time, random);
                && disk == old(disk) + {path}
                && r == ReceivedFile(StoredFile(part.originalname, part.mimetype,
                                                StoredName(part.originalname, time, random), path, part.size))
    {
      match part
      case ParserError =>
        r := ReceiveFailed;
      case NoFile =>
        r := NothingReceived;
      case FilePart(originalname, mimetype, size) =>
        if originalname == "" {
          r := NothingReceived;
        } else if size > MaxFileSize {
          r := ReceiveFailed;
        } else {
          var filename := StoredName(originalname, time, random);
          var path := JoinPath(uploadDir, filename);
          disk := disk + {path};
          r := ReceivedFile(StoredFile(originalname, mimetype, filename, path, size));
        }
    }

    /** The document the handler builds from `req.file` and the caller's id. */
    static function DraftOf(file: StoredFile, owner: string): FileModel.FileDraft {
      FileModel.FileDraft(Some(file.filename), Some(file.originalname), Some(file.size),
                          Some(file.mimetype), None, Some(file.path), Some(owner))
    }

    /** Building the record and saving it. A validation error, a duplicate `_id` or a failing
        write is caught and answered 500; otherwise the record is added under its new id. */
    method Save(file: StoredFile, owner: string, now: int, newId: FileId, saveFails: bool)
      returns (out: UploadResponse)
      requires Valid() && FileModel.IsCanonicalId(newId)
      modifies this
      ensures Valid() && disk == old(disk)
      ensures out.Created? <==> FileModel.Create(DraftOf(file, owner), now).Ok? && newId !in old(catalog) && !saveFails
      ensures out.Created? ==>
                var rec := FileModel.Create(DraftOf(file, owner), now).value;
                && catalog == old(catalog)[newId := rec]
                && out.file == UploadedSummary(newId, rec.filename, rec.originalName, rec.size, rec.uploadTime)
      ensures !out.Created? ==> catalog == old(catalog) && out == UploadRejected(500, "Internal server error")
      ensures old(Consistent()) && file.path in disk ==> Consistent()
    {
      var doc := FileModel.Create(DraftOf(file, owner), now);
      if doc.Err? || newId in catalog || saveFails {
        out := UploadRejected(500, "Internal server error");
      } else {
        var rec := doc.value;
        FileModel.InsertUnsharedKeepsValid(catalog, newId, rec);
        catalog := catalog[newId := rec];
        out := Created(UploadedSummary(newId, rec.filename, rec.originalName, rec.size, rec.uploadTime));
        if old(Consistent()) && file.path in disk {
          forall id | id in catalog ensures catalog[id].path in disk {
            if id != newId {
              assert catalog[id] == old(catalog)[id];
            } else {
              assert catalog[id].path == file.path;
            }
          }
        }
      }
    }

    /** `uploadFile`. The part is written to disk first; only then is the caller checked and
        the record built and saved. A refusal after the write leaves the file where it is. */
    method Upload(caller: Option<Identity>, part: Multipart, time: nat, random: real, now: int,
                  newId: FileId, saveFails: bool) returns (out: UploadResponse)
      requires Valid() && FileModel.IsCanonicalId(newId)
      requires part.FilePart? ==> NodePath.NoSlash(part.originalname)
      requires 0.0 <= random < 1.0
      modifies this
      ensures Valid()
      ensures !Fits(part) ==> disk == old(disk) && catalog == old(catalog)
      ensures (part.ParserError? || (part.FilePart? && !Skipped(part) && !Fits(part))) ==>
                out == UploadRejected(500, "File upload failed")
      ensures Skipped(part) ==> out == UploadRejected(400, "No file uploaded")
      ensures Fits(part) ==> disk == old(disk) + {StoredPath(part, time, random)}
      ensures Fits(part) && caller.None? ==> out == UploadRejected(401, "User not authenticated")
      ensures out.Created? <==>
                && Fits(part) && caller.Some?
                && FileModel.Create(UploadDraft(part, time, random, caller.value.id), now).Ok?
                && newId !in old(catalog) && !saveFails
      ensures out.Created? ==>
                var rec := FileModel.Create(UploadDraft(part, time, random, caller.value.id), now).value;
                && catalog == old(catalog)[newId := rec]
                && out.file == UploadedSummary(newId, rec.filename, rec.originalName, rec.size, rec.uploadTime)
      ensures !out.Created? ==> catalog == old(catalog)
      ensures Fits(part) && caller.Some? && !out.Created? ==> out == UploadRejected(500, "Internal server error")
      ensures old(Consistent()) ==> Consistent()
    {
      var received := Receive(part, time, random);
      match received
      case ReceiveFailed =>
        out := UploadRejected(500, "File upload failed");
      case NothingReceived =>
        out := UploadRejected(400, "No file uploaded");
      case ReceivedFile(file) =>
        if caller.None? {
          out := UploadRejected(401, "User not authenticated");
          return;
        }
        assert DraftOf(file, caller.value.id) == UploadDraft(part, time, random, caller.value.id);
        out := Save(file, caller.value.id, now, newId, saveFails);
    }

    /** `getUserFiles`: the caller's records, newest first, without the internal fields. The
        database's filter-and-sort is modelled as a scan over the records in an arbitrary order,
        each of the caller's records inserted by upload time. */
    method List(caller: Option<Identity>) returns (out: ListResponse)
      ensures caller.None? <==> out == ListRejected(401, "User not authenticated")
      ensures caller.Some? ==> out.Listing?
      ensures out.Listing? ==> SortedByTimeDesc(out.files) && DistinctIds(out.files)
      ensures out.Listing? ==>
                forall f :: f in out.files ==> Owns(caller.value, f.id) && f == Summarize(f.id, catalog[f.id])
      ensures out.Listing? ==>
                forall id :: Owns(caller.value, id) ==> exists f :: f in out.files && f.id == id
    {
      if caller.None? {
        out := ListRejected(401, "User not authenticated");
        return;
      }
      var who := caller.value;
      var files: seq<ListedFile> := [];
      var rest := catalog.Keys;
      while rest != {}
        invariant rest <= catalog.Keys
        invariant SortedByTimeDesc(files) && DistinctIds(files)
        invariant forall f :: f in files ==> Owns(who, f.id) && f.id !in rest && f == Summarize(f.id, catalog[f.id])
        invariant forall id :: Owns(who, id) && id !in rest ==> exists f :: f in files && f.id == id
        decreases rest
      {
        var id :| id in rest;
        if catalog[id].owner == who.id {
          InsertByTimeSorted(files, Summarize(id, catalog[id]));
          InsertByTimeDistinct(files, Summarize(id, catalog[id]));
          files := InsertByTime(files, Summarize(id, catalog[id]));
        }
        rest := rest - {id};
      }
      out := Listing(files);
    }

    /** `downloadFile`: the id must be an ObjectId, the record it denotes must be the caller's
        and its file must be on disk; the response then streams that file under the record's
        type and original name. */
    function Download(caller: Option<Identity>, fileId: FileId): (r: DownloadResponse)
      reads this
      ensures caller.None? <==> r == DownloadRejected(401, "User not authenticated")
      ensures caller.Some? && !FileModel.IsObjectId(fileId) ==> r == DownloadRejected(500, "Internal server error")
      ensures caller.Some? ==>
                (r == DownloadRejected(404, "File not found") <==>
                   FileModel.IsObjectId(fileId) && !Owns(caller.value, FileModel.Canonical(fileId)))
      ensures var key := FileModel.Canonical(fileId);
              caller.Some? && FileModel.IsObjectId(fileId) && Owns(caller.value, key) ==>
                (r == DownloadRejected(404, "File not found on disk") <==> catalog[key].path !in disk)
      ensures var key := FileModel.Canonical(fileId);
              caller.Some? && FileModel.IsObjectId(fileId) && Owns(caller.value, key) && catalog[key].path in disk
              && !(HeaderValueOk(catalog[key].mimeType) && HeaderValueOk(catalog[key].originalName)) ==>
                r == DownloadRejected(500, "Internal server error")
      ensures var key := FileModel.Canonical(fileId);
              r.Attachment? <==>
                && caller.Some? && FileModel.IsObjectId(fileId) && Owns(caller.value, key)
                && catalog[key].path in disk
                && HeaderValueOk(catalog[key].mimeType) && HeaderValueOk(catalog[key].originalName)
      ensures var key := FileModel.Canonical(fileId);
              r.Attachment? ==>
                && r.contentType == catalog[key].mimeType
                && r.contentDisposition == Disposition(catalog[key].originalName)
                && r.path == catalog[key].path
    {
      if caller.None? then DownloadRejected(401, "User not authenticated")
      // the failed cast of `_id` rejects the query; the catch answers 500
      else if !FileModel.IsObjectId(fileId) then DownloadRejected(500, "Internal server error")
      else
        var key := FileModel.Canonical(fileId);
        if !Owns(caller.value, key) then DownloadRejected(404, "File not found")
        else
          var rec := catalog[key];
          if rec.path !in disk then DownloadRejected(404, "File not found on disk")
          else if !HeaderValueOk(rec.mimeType) || !HeaderValueOk(Disposition(rec.originalName)) then
            // `setHeader` throws on an invalid character; the catch answers 500
            DispositionHeaderOk(rec.originalName);
            DownloadRejected(500, "Internal server error")
          else
            DispositionHeaderOk(rec.originalName);
            Attachment(rec.mimeType, Disposition(rec.originalName), rec.path)
    }

    /** Two castable spellings of the same ObjectId, differing only in the case of their hex
        digits, are answered alike. */
    lemma DownloadIgnoresHexCase(caller: Option<Identity>, a: FileId, b: FileId)
      requires FileModel.IsObjectId(a) && FileModel.Canonical(a) == FileModel.Canonical(b)
      ensures Download(caller, a) == Download(caller, b)
    {
      FileModel.CanonicalOfObjectId(a);
      FileModel.CanonicalOfObjectId(b);
    }

    /** `deleteFile`: the id must be an ObjectId and the record it denotes the caller's; its file
        is unlinked if present, then the record is removed. A failure at either step is answered
        500 and stops there. */
    method Delete(caller: Option<Identity>, fileId: FileId, unlinkFails: bool, removeFails: bool)
      returns (out: DeleteResponse)
      requires Valid()
      modifies this
      ensures Valid()
      ensures caller.None? ==>
                out == DeleteRejected(401, "User not authenticated") && catalog == old(catalog) && disk == old(disk)
      ensures caller.Some? && !FileModel.IsObjectId(fileId) ==>
                out == DeleteRejected(500, "Internal server error") && catalog == old(catalog) && disk == old(disk)
      ensures caller.Some? && FileModel.IsObjectId(fileId) && !old(Owns(caller.value, FileModel.Canonical(fileId))) ==>
                out == DeleteRejected(404, "File not found") && catalog == old(catalog) && disk == old(disk)
      ensures var key := FileModel.Canonical(fileId);
              caller.Some? && FileModel.IsObjectId(fileId) && old(Owns(caller.value, key)) ==>
                var path := old(catalog)[key].path;
                if path in old(disk) && unlinkFails then
                  out == DeleteRejected(500, "Internal server error") && catalog == old(catalog) && disk == old(disk)
                else
                  && disk == old(disk) - {path}
                  && (if removeFails then out == DeleteRejected(500, "Internal server error") && catalog == old(catalog)
                      else out == Deleted && catalog == old(catalog) - {key})
      ensures out.Deleted? && old(Consistent()) && old(DistinctPaths()) ==> Consistent() && DistinctPaths()
    {
      if caller.None? {
        out := DeleteRejected(401, "User not authenticated");
        return;
      }
      if !FileModel.IsObjectId(fileId) {
        // the failed cast of `_id` rejects the query
        out := DeleteRejected(500, "Internal server error");
        return;
      }
      var key := FileModel.Canonical(fileId);
      if !Owns(caller.value, key) {
        out := DeleteRejected(404, "File not found");
        return;
      }
      var path := catalog[key].path;
      if path in disk {
        if unlinkFails {
          out := DeleteRejected(500, "Internal server error");
          return;
        }
        disk := disk - {path};
      }
      if removeFails {
        out := DeleteRejected(500, "Internal server error");
        return;
      }
      FileModel.RemoveKeepsValid(catalog, key);
      catalog := catalog - {key};
      out := Deleted;
    }
  }

  // ---------------------------------------------------------------------------
  // Request sequences

  /** Deleting the same file twice: the second request finds nothing and changes nothing, so
      the state is the one the first deletion left. */
  method DeleteTwice(svc: FileService, caller: Identity, fileId: FileId)
    returns (first: DeleteResponse, second: DeleteResponse)
    requires svc.Valid()
    modifies svc
    ensures first.Deleted? <==> FileModel.IsObjectId(fileId) && old(svc.Owns(caller, FileModel.Canonical(fileId)))
    ensures var key := FileModel.Canonical(fileId);
            first.Deleted? ==>
              && second == DeleteRejected(404, "File not found")
              && svc.catalog == old(svc.catalog) - {key}
              && svc.disk == old(svc.disk) - {old(svc.catalog)[key].path}
    ensures !first.Deleted? ==> first == second && svc.catalog == old(svc.catalog) && svc.disk == old(svc.disk)
  {
    first := svc.Delete(Some(caller), fileId, false, false);
    second := svc.Delete(Some(caller), fileId, false, false);
  }

  /** Uploading a file and fetching it back: the owner sees it in the listing and gets it as an
      attachment of its trimmed type under its trimmed original name (unless a header character
      is refused); any other user is answered exactly as for a missing file. */
  method UploadThenDownload(svc: FileService, owner: Identity, other: Identity, part: Multipart,
                            time: nat, random: real, now: int, newId: FileId)
    returns (up: UploadResponse, listed: ListResponse, mine: DownloadResponse, theirs: DownloadResponse)
    requires svc.Valid() && part.FilePart? && NodePath.NoSlash(part.originalname)
    requires 0.0 <= random < 1.0
    requires other.id != owner.id
    requires FileModel.IsCanonicalId(newId)
    modifies svc
    ensures up.Created? <==>
              && Fits(part) && Text.Trim(part.originalname) != "" && Text.Trim(part.mimetype) != ""
              && owner.id != "" && newId !in old(svc.catalog)
    ensures up.Created? ==> up.file.id == newId && up.file.originalName == Text.Trim(part.originalname)
    ensures up.Created? ==> listed.Listing? && exists f :: f in listed.files && f.id == newId
    ensures up.Created? ==>
              (mine.Attachment? <==> HeaderValueOk(Text.Trim(part.mimetype)) && HeaderValueOk(Text.Trim(part.originalname)))
    ensures up.Created? && mine.Attachment? ==>
              && mine.contentType == Text.Trim(part.mimetype)
              && mine.contentDisposition == Disposition(Text.Trim(part.originalname))
    ensures up.Created? ==> theirs == DownloadRejected(404, "File not found")
  {
    svc.UploadDraftValidates(part, time, random, owner.id, now);
    FileModel.CanonicalOfObjectId(newId);
    ghost var c := FileModel.Create(svc.UploadDraft(part, time, random, owner.id), now);
    ghost var path := svc.StoredPath(part, time, random);
    up := svc.Upload(Some(owner), part, time, random, now, newId, false);
    if up.Created? {
      assert svc.catalog[newId] == c.value;
      assert c.value.path == path && path in svc.disk;
      assert svc.Owns(owner, newId) && !svc.Owns(other, newId);
    }
    listed := svc.List(Some(owner));
    mine := svc.Download(Some(owner), newId);
    theirs := svc.Download(Some(other), newId);
  }
}
