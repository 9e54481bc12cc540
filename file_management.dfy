/**
 * The file page's list bookkeeping: the list is set from the initial fetch,
 * a freshly uploaded file goes in front, a deleted one is filtered out, and a
 * download is named after the matching entry's original name.
 */
module FileManagement {
  import opened Wrappers

  /** One entry of the page's list. */
  datatype FileData = FileData(id: string, filename: string, originalName: string, size: int, uploadTime: string)

  /** The page's state: the list, the loading flag and the error text ("" for none). */
  datatype Page = Page(files: seq<FileData>, loading: bool, error: string)

  /** The state on mount. */
  function Initial(): Page {
    Page([], true, "")
  }

  /** What `getUserFiles` resolves to, or that the call threw. */
  datatype FetchResult = Fetched(files: Option<seq<FileData>>) | Unsuccessful(message: string) | FetchThrew

  /** The message `getUserFiles` reports for a refused request: the server's own message, or a
      fixed one when there is none. */
  function FetchFailureMessage(serverMessage: Option<string>): (m: string)
    ensures m != ""
    ensures serverMessage.Some? && serverMessage.value != "" ==> m == serverMessage.value
    ensures serverMessage.None? || serverMessage.value == "" ==> m == "Failed to get files"
  {
    if serverMessage.Some? && serverMessage.value != "" then serverMessage.value else "Failed to get files"
  }

  /** The initial fetch's callback, `finally` included. */
  function AfterFetch(p: Page, r: FetchResult): (q: Page)
    ensures !q.loading
    ensures r.Fetched? ==> q.files == (if r.files.Some? then r.files.value else []) && q.error == p.error
    ensures r.Unsuccessful? ==> q.files == p.files && q.error == r.message
    ensures r.FetchThrew? ==> q.files == p.files && q.error == "Failed to fetch files"
  {
    match r
    case Fetched(files) => Page(files.GetOr([]), false, p.error)
    case Unsuccessful(message) => Page(p.files, false, message)
    case FetchThrew => Page(p.files, false, "Failed to fetch files")
  }

  /** From the mount state, a failed fetch leaves the list empty and reports an error, and a
      successful one shows exactly what came back. */
  lemma InitialLoad(r: FetchResult)
    ensures AfterFetch(Initial(), r).files == (if r.Fetched? && r.files.Some? then r.files.value else [])
    ensures !AfterFetch(Initial(), r).loading
    ensures r.FetchThrew? || (r.Unsuccessful? && r.message != "") ==> AfterFetch(Initial(), r).error != ""
  {
  }

  /** A refused fetch always leaves an error on the page, since `getUserFiles` never reports an
      empty message. */
  lemma RefusedFetchShowsError(p: Page, serverMessage: Option<string>)
    ensures AfterFetch(p, Unsuccessful(FetchFailureMessage(serverMessage))).error != ""
  {
  }

  /** How a chosen upload ended: nothing was chosen, the server answered (with or without a
      `file`), or the request threw. */
  datatype UploadResult = NoFileChosen | Answered(file: Option<FileData>) | UploadThrew

  /** The upload handler's effect: the returned file is put in front of the list. */
  function AfterUpload(p: Page, r: UploadResult): (q: Page)
    ensures q.loading == p.loading
    ensures r.Answered? && r.file.Some? ==> q.files == [r.file.value] + p.files && q.error == p.error
    ensures r.Answered? && r.file.Some? ==> q.files[0] == r.file.value && q.files[1..] == p.files
    ensures r.UploadThrew? ==> q.files == p.files && q.error == "File upload failed"
    ensures r.NoFileChosen? || (r.Answered? && r.file.None?) ==> q == p
  {
    match r
    case NoFileChosen => p
    case Answered(file) => if file.Some? then Page([file.value] + p.files, p.loading, p.error) else p
    case UploadThrew => Page(p.files, p.loading, "File upload failed")
  }

  /** `files.filter((file) => file.id !== id)`. */
  function Without(files: seq<FileData>, id: string): (r: seq<FileData>)
    ensures |r| <= |files|
    ensures forall f :: f in r <==> f in files && f.id != id
  {
    if files == [] then []
    else (if files[0].id == id then [] else [files[0]]) + Without(files[1..], id)
  }

  /** Filtering a list with a head is filtering the head and then the rest. */
  lemma WithoutCons(x: FileData, s: seq<FileData>, id: string)
    ensures Without([x] + s, id) == (if x.id == id then [] else [x]) + Without(s, id)
  {
    assert ([x] + s)[0] == x && ([x] + s)[1..] == s;
  }

  /** Filtering splits over concatenation, so the remaining entries keep their order. */
  lemma {:induction false} WithoutConcat(a: seq<FileData>, b: seq<FileData>, id: string)
    ensures Without(a + b, id) == Without(a, id) + Without(b, id)
  {
    if a == [] {
      assert a + b == b;
    } else {
      var x, t := a[0], a[1..];
      assert a == [x] + t && a + b == [x] + (t + b);
      WithoutConcat(t, b, id);
      WithoutCons(x, t + b, id);
      WithoutCons(x, t, id);
    }
  }

  /** With no entry carrying the id, filtering changes nothing. */
  lemma {:induction false} WithoutAbsent(files: seq<FileData>, id: string)
    requires forall i :: 0 <= i < |files| ==> files[i].id != id
    ensures Without(files, id) == files
  {
    if files != [] {
      WithoutAbsent(files[1..], id);
    }
  }

  /** The delete handler's effect: on success every entry with the id is dropped; on failure
      the list stays and the error is set. */
  function AfterDelete(p: Page, id: string, succeeded: bool): (q: Page)
    ensures succeeded ==> q.files == Without(p.files, id) && q.error == p.error
    ensures !succeeded ==> q.files == p.files && q.error == "File deletion failed"
    ensures q.loading == p.loading
  {
    if succeeded then Page(Without(p.files, id), p.loading, p.error)
    else Page(p.files, p.loading, "File deletion failed")
  }

  /** Deleting what was just uploaded, under an id no other entry has, restores the list. */
  lemma DeleteUndoesUpload(p: Page, f: FileData)
    requires forall i :: 0 <= i < |p.files| ==> p.files[i].id != f.id
    ensures AfterDelete(AfterUpload(p, Answered(Some(f))), f.id, true).files == p.files
  {
    WithoutConcat([f], p.files, f.id);
    WithoutAbsent(p.files, f.id);
  }

  /** `files.find((f) => f.id === id)`: the first entry with the id. */
  function Find(files: seq<FileData>, id: string): (r: Option<FileData>)
    ensures r.None? <==> forall i :: 0 <= i < |files| ==> files[i].id != id
    ensures r.Some? ==> exists i :: 0 <= i < |files| && files[i] == r.value && r.value.id == id
                                    && forall j :: 0 <= j < i ==> files[j].id != id
  {
    if files == [] then None
    else if files[0].id == id then Some(files[0])
    else
      var rest := Find(files[1..], id);
      if rest.Some? then
        assert exists i :: 0 <= i < |files| && files[i] == rest.value && rest.value.id == id
                           && forall j :: 0 <= j < i ==> files[j].id != id by {
          var k :| 0 <= k < |files| - 1 && files[1..][k] == rest.value && rest.value.id == id
                   && forall j :: 0 <= j < k ==> files[1..][j].id != id;
          assert files[k + 1] == rest.value;
          forall j | 0 <= j < k + 1 ensures files[j].id != id {
            if j > 0 { assert files[j] == files[1..][j - 1]; }
          }
        }
        rest
      else
        assert forall i :: 0 <= i < |files| ==> files[i].id != id by {
          forall i | 0 <= i < |files| ensures files[i].id != id {
            if i > 0 { assert files[i] == files[1..][i - 1]; }
          }
        }
        None
  }

  /** The name a download is saved under: the matching entry's original name, or "file" when
      there is no entry or its name is empty. */
  function DownloadName(files: seq<FileData>, id: string): (name: string)
    ensures name != ""
    ensures (forall i :: 0 <= i < |files| ==> files[i].id != id) ==> name == "file"
    ensures Find(files, id).Some? && Find(files, id).value.originalName == "" ==> name == "file"
    ensures Find(files, id).Some? && Find(files, id).value.originalName != "" ==>
              name == Find(files, id).value.originalName
  {
    match Find(files, id)
    case Some(f) => if f.originalName != "" then f.originalName else "file"
    case None => "file"
  }

  /** A file just put in front of the list is the one its id now names for a download. */
  lemma DownloadNameAfterUpload(p: Page, f: FileData)
    requires f.originalName != ""
    ensures DownloadName(AfterUpload(p, Answered(Some(f))).files, f.id) == f.originalName
  {
    assert Find([f] + p.files, f.id) == Some(f);
  }

  /** `formatFileSize`, for its first branch only: zero bytes reads "0 Bytes". The other
      sizes go through floating-point logarithms and are not modelled (None). */
  function FormatFileSize(bytes: int): (shown: Option<string>)
    ensures bytes == 0 <==> shown == Some("0 Bytes")
  {
    if bytes == 0 then Some("0 Bytes") else None
  }
}
