/**
 * The File schema: which fields a stored file record must have, which are
 * trimmed on assignment, the upload-time default, and the sparse unique
 * index on `shareLink`.
 */
module FileModel {
  import opened Wrappers
  import Text

  type FileId = string
  type UserId = string

  predicate IsHexDigit(c: char) {
    ('0' <= c <= '9') || ('a' <= c <= 'f') || ('A' <= c <= 'F')
  }

  /** The strings a query's `_id` condition can be cast to an ObjectId from: 24 hexadecimal
      digits. Any other string makes the query fail with a cast error. */
  predicate IsObjectId(id: FileId) {
    |id| == 24 && forall i :: 0 <= i < |id| ==> IsHexDigit(id[i])
  }

  function LowerHexDigit(c: char): (d: char)
    ensures IsHexDigit(c) <==> IsHexDigit(d) && !('A' <= d <= 'F')
  {
    if 'A' <= c <= 'F' then (c as int - 'A' as int + 'a' as int) as char else c
  }

  /** The ObjectId a castable id denotes, written as its `toString` writes it: the cast reads the
      hexadecimal digits without regard to case, and the string form is lower-case. */
  function Canonical(id: FileId): (r: FileId)
    ensures |r| == |id|
    ensures forall i :: 0 <= i < |id| ==> r[i] == LowerHexDigit(id[i])
  {
    seq(|id|, i requires 0 <= i < |id| => LowerHexDigit(id[i]))
  }

  /** An id as the database hands it out: an ObjectId in lower-case hexadecimal. */
  predicate IsCanonicalId(id: FileId) {
    IsObjectId(id) && forall i :: 0 <= i < |id| ==> !('A' <= id[i] <= 'F')
  }

  /** Every castable id denotes a canonical one, and a canonical id denotes itself; so two
      castable spellings name the same record exactly when their canonical forms agree. */
  lemma CanonicalOfObjectId(id: FileId)
    ensures IsObjectId(id) ==> IsCanonicalId(Canonical(id))
    ensures IsCanonicalId(id) ==> Canonical(id) == id
    ensures IsObjectId(id) <==> IsObjectId(Canonical(id))
  {
    var r := Canonical(id);
    if IsObjectId(id) {
      forall i | 0 <= i < |r| ensures IsHexDigit(r[i]) && !('A' <= r[i] <= 'F') {
        assert r[i] == LowerHexDigit(id[i]);
      }
    }
    if IsObjectId(r) {
      forall i | 0 <= i < |id| ensures IsHexDigit(id[i]) {
        assert r[i] == LowerHexDigit(id[i]);
      }
    }
    if IsCanonicalId(id) {
      forall i | 0 <= i < |id| ensures r[i] == id[i] {
        assert r[i] == LowerHexDigit(id[i]);
      }
    }
  }

  /** A stored file document. The three share fields are optional. */
  datatype FileRecord = FileRecord(
    filename: string,
    originalName: string,
    size: int,
    mimeType: string,
    uploadTime: int,
    path: string,
    owner: UserId,
    shareLink: Option<string>,
    shareExpiry: Option<int>,
    sharePassword: Option<string>)

  /** The fields handed to the model's constructor; any of them may be absent. */
  datatype FileDraft = FileDraft(
    filename: Option<string>,
    originalName: Option<string>,
    size: Option<int>,
    mimeType: Option<string>,
    uploadTime: Option<int>,
    path: Option<string>,
    owner: Option<UserId>)

  /** The paths whose `required` validator can fail. */
  datatype Field = Filename | OriginalName | Size | MimeType | Path | Owner

  /** `required` on a String path accepts only a non-empty string. */
  predicate StringPresent(v: Option<string>) {
    v.Some? && v.value != ""
  }

  /** The `trim: true` setter, run when the value is assigned. */
  function Trimmed(v: Option<string>): Option<string> {
    match v
    case None => None
    case Some(s) => Some(Text.Trim(s))
  }

  const AllFields: set<Field> := {Filename, OriginalName, Size, MimeType, Path, Owner}

  /** Whether a field passes `required` once the setters have run. */
  predicate Satisfied(d: FileDraft, f: Field) {
    match f
    case Filename => StringPresent(Trimmed(d.filename))
    case OriginalName => StringPresent(Trimmed(d.originalName))
    case Size => d.size.Some?
    case MimeType => StringPresent(Trimmed(d.mimeType))
    case Path => StringPresent(d.path)
    case Owner => StringPresent(d.owner)
  }

  /** The fields that fail `required`. */
  function MissingFields(d: FileDraft): (m: set<Field>)
    ensures Filename in m <==> d.filename.None? || Text.Trim(d.filename.value) == ""
    ensures OriginalName in m <==> d.originalName.None? || Text.Trim(d.originalName.value) == ""
    ensures Size in m <==> d.size.None?
    ensures MimeType in m <==> d.mimeType.None? || Text.Trim(d.mimeType.value) == ""
    ensures Path in m <==> d.path.None? || d.path.value == ""
    ensures Owner in m <==> d.owner.None? || d.owner.value == ""
  {
    set f | f in AllFields && !Satisfied(d, f)
  }

  /** What validation guarantees about a stored record: the trimmed strings are trimmed and
      non-empty, and `path` and `owner` are non-empty. `size` has no bound. */
  predicate WellFormed(r: FileRecord) {
    && r.filename != "" && Text.Trim(r.filename) == r.filename
    && r.originalName != "" && Text.Trim(r.originalName) == r.originalName
    && r.mimeType != "" && Text.Trim(r.mimeType) == r.mimeType
    && r.path != ""
    && r.owner != ""
  }

  /** Constructing and validating a document: the setters trim, `uploadTime` defaults to `now`,
      the share fields stay unset, and the document is accepted exactly when every required
      field is present. */
  function Create(d: FileDraft, now: int): (r: Result<FileRecord, set<Field>>)
    ensures r.Ok? <==>
              && d.filename.Some? && Text.Trim(d.filename.value) != ""
              && d.originalName.Some? && Text.Trim(d.originalName.value) != ""
              && d.size.Some?
              && d.mimeType.Some? && Text.Trim(d.mimeType.value) != ""
              && d.path.Some? && d.path.value != ""
              && d.owner.Some? && d.owner.value != ""
    ensures r.Err? ==> r.error != {} && r.error == MissingFields(d)
    ensures r.Ok? ==>
              && r.value.filename == Text.Trim(d.filename.value)
              && r.value.originalName == Text.Trim(d.originalName.value)
              && r.value.size == d.size.value
              && r.value.mimeType == Text.Trim(d.mimeType.value)
              && r.value.uploadTime == (if d.uploadTime.Some? then d.uploadTime.value else now)
              && r.value.path == d.path.value
              && r.value.owner == d.owner.value
              && r.value.shareLink.None? && r.value.shareExpiry.None? && r.value.sharePassword.None?
    ensures r.Ok? ==> WellFormed(r.value)
  {
    var missing := MissingFields(d);
    if missing != {} then Err(missing)
    else
      Text.TrimIdempotent(d.filename.value);
      Text.TrimIdempotent(d.originalName.value);
      Text.TrimIdempotent(d.mimeType.value);
      Ok(FileRecord(
        Text.Trim(d.filename.value), Text.Trim(d.originalName.value), d.size.value,
        Text.Trim(d.mimeType.value), d.uploadTime.GetOr(now), d.path.value, d.owner.value,
        None, None, None))
  }

  /** A draft with every field but `uploadTime` given, whose filename and path cannot fail,
      validates exactly when the original name, the MIME type and the owner pass, and the
      record then holds those values. */
  lemma CreateWithNameAndPath(filename: string, originalName: string, size: int, mimeType: string,
                              path: string, owner: UserId, now: int)
    requires Text.Trim(filename) != "" && path != ""
    ensures var c := Create(FileDraft(Some(filename), Some(originalName), Some(size), Some(mimeType),
                                      None, Some(path), Some(owner)), now);
            && (c.Ok? <==> Text.Trim(originalName) != "" && Text.Trim(mimeType) != "" && owner != "")
            && (c.Ok? ==>
                  && c.value.originalName == Text.Trim(originalName) && c.value.mimeType == Text.Trim(mimeType)
                  && c.value.size == size && c.value.path == path && c.value.owner == owner
                  && c.value.uploadTime == now)
  {
  }

  /** The sparse unique index on `shareLink`: two records may not carry the same link, but any
      number of records may carry none. */
  predicate ShareLinksUnique(c: map<FileId, FileRecord>) {
    forall a, b :: a in c && b in c && a != b && c[a].shareLink.Some? ==> c[a].shareLink != c[b].shareLink
  }

  /** What the collection maintains: every record validated, the share-link index respected. */
  predicate CatalogValid(c: map<FileId, FileRecord>) {
    && (forall id :: id in c ==> WellFormed(c[id]))
    && ShareLinksUnique(c)
  }

  /** Records without a share link never clash on the index, however many there are. */
  lemma UnsharedRecordsAreUnique(c: map<FileId, FileRecord>)
    requires forall id :: id in c ==> c[id].shareLink.None?
    ensures ShareLinksUnique(c)
  {
  }

  /** Saving a validated record that has no share link keeps the collection valid. */
  lemma InsertUnsharedKeepsValid(c: map<FileId, FileRecord>, id: FileId, r: FileRecord)
    requires CatalogValid(c) && WellFormed(r) && r.shareLink.None?
    ensures CatalogValid(c[id := r])
  {
  }

  /** Removing a record keeps the collection valid. */
  lemma RemoveKeepsValid(c: map<FileId, FileRecord>, id: FileId)
    requires CatalogValid(c)
    ensures CatalogValid(c - {id})
  {
  }
}
