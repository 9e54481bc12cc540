# Wonder Cloud Drive — a Dafny model of its core

Wonder Cloud Drive is a small personal cloud drive: an Express/MongoDB backend
with JWT login and owner-scoped file upload, listing, download and deletion,
and a React page that keeps the signed-in user's file list. This project
models the core of both sides and proves what each piece promises.

- `wrappers.dfy` (`Wrappers`): `Option` and `Result`.
- `text.dfy` (`Text`): the JavaScript string operations the core relies on —
  `String.prototype.trim` with its exact whitespace set, `split(" ")` (with
  `Join` as its inverse), the UTF-16 length that `minlength`/`maxlength`
  measure, and decimal rendering of timestamps.
- `node_path.dfy` (`NodePath`): Node's POSIX `path.extname` and
  `path.basename(p, ext)` for names without a '/'.
- `file_model.dfy` (`FileModel`): the File schema — required fields, the
  `trim` setters, the `uploadTime` default and the sparse unique `shareLink`
  index — as a constructor that validates, and the collection invariant.
- `user_model.dfy` (`UserModel`): the User schema — trimmed unique username of
  3 to 30 characters, password of at least 6 — and the table invariant.
- `config.dfy` (`Config`): loading the configuration from the environment,
  failing on the first missing required variable and defaulting the rest.
- `auth_middleware.dfy` (`AuthMiddleware`): extracting the bearer token and
  the 401/403/next decision; token verification is a function parameter.
- `auth_controller.dfy` (`AuthController`): the login decision (missing
  credentials, the configured default account, a stored account, invalid
  credentials), the `UserCollection` class whose `Login` provisions the
  default account, and `/me`.
- `file_controller.dfy` (`FileController`): the stored-name scheme, and the
  `FileService` class holding the File collection (`catalog`) and the
  paths present in the upload directory (`disk`), with the parser step, upload,
  listing (newest first), download and delete, and two request sequences.
- `file_management.dfy` (`FileManagement`): the page's list bookkeeping
  after the initial fetch, an upload and a delete, and the download-name
  lookup.

Time (`Date.now()`), `Math.random()`, new record ids, and the failure of a
database save, `fs.unlinkSync` or `File.deleteOne` are parameters of the
operations that use them. Token signing is symbolic and token verification
is a parameter.

## Model

| member | source | states |
|---|---|---|
| Text.TrimStart | backend/src/models/File.ts:22 | the result is a suffix of the input, every removed character is JavaScript whitespace, and the result does not start with whitespace |
| Text.TrimEnd | backend/src/models/File.ts:22 | the result is a prefix of the input, every removed character is whitespace, and the result does not end with whitespace |
| Text.Trim | backend/src/models/File.ts:22 | defined as `TrimStart` followed by `TrimEnd`, so both ends lose their JavaScript whitespace; its properties are the next three rows |
| Text.TrimIsSlice | backend/src/models/File.ts:19-23 | a trimmed value is a contiguous slice of what was assigned |
| Text.TrimIdempotent | backend/src/models/File.ts:19-23 | trimming a trimmed value changes nothing, so stored values are fixed points of the setter |
| Text.TrimEmptyIff | backend/src/models/File.ts:19-23 | a value fails `required` after trimming exactly when it is all whitespace |
| Text.Utf16Length | backend/src/models/User.ts:12-19 | the length `minlength`/`maxlength` measure lies between the code-point count and twice it, and equals it for text in the Basic Multilingual Plane |
| Text.IndexOf | backend/src/middleware/auth.ts:24 | the position of the first occurrence of the separator |
| Text.Split | backend/src/middleware/auth.ts:24 | `split` yields at least one field, no field holds the separator, and joining the fields with it gives the input back |
| Text.Decimal | backend/src/controllers/fileController.ts:28 | a number renders as a non-empty string of digits, starting with '0' exactly when the number is zero, so there is never a leading zero |
| Text.DecimalRoundTrip | backend/src/controllers/fileController.ts:28 | reading the digits back gives the number: the rendering loses nothing |
| NodePath.LastIndexOf | backend/src/controllers/fileController.ts:29 | the last position of the character, or -1, with no occurrence after it |
| NodePath.Extname | backend/src/controllers/fileController.ts:29 | `path.extname` for a name without '/': from the last '.' to the end, or empty when there is no dot, the only dot opens the name, or the name is ".." |
| NodePath.Basename | backend/src/controllers/fileController.ts:30-31 | `path.basename(p, ext)`: the name with the suffix cut off when it ends with it, empty when it is the suffix, otherwise the name |
| NodePath.ExtnameShape | backend/src/controllers/fileController.ts:29 | a non-empty extension is a proper suffix of the name that starts with its only '.' |
| NodePath.BasenameExtname | backend/src/controllers/fileController.ts:29-31 | the name with its extension cut off, followed by the extension, is the name |
| NodePath.LastIndexOfAt | backend/src/controllers/fileController.ts:29 | a position holding the character with none after it is the last index |
| NodePath.ExtnameOfSuffix | backend/src/controllers/fileController.ts:29-31 | a name ending in a dot-led, dot-free suffix after at least two characters has that suffix as its extension |
| FileModel.IsObjectId | backend/src/controllers/fileController.ts:137 | the ids an `_id` query condition can be cast from: 24 hexadecimal digits |
| FileModel.Canonical | backend/src/controllers/fileController.ts:137 | the ObjectId a castable id denotes, in the lower-case form its string conversion gives: each hex digit lower-cased, nothing else changed |
| FileModel.IsCanonicalId | backend/src/controllers/fileController.ts:82 | an id as the database generates it: an ObjectId in lower-case hex |
| FileModel.CanonicalOfObjectId | backend/src/controllers/fileController.ts:137 | every castable id denotes a canonical id, a canonical id denotes itself, and lower-casing keeps castability in both directions |
| FileModel.MissingFields | backend/src/models/File.ts:18-50 | each required field is reported exactly when it is absent or, for the trimmed ones, blank after trimming |
| FileModel.WellFormed | backend/src/models/File.ts:18-50 | what a validated record satisfies: filename, original name and MIME type non-empty and already trimmed, path and owner non-empty |
| FileModel.ShareLinksUnique | backend/src/models/File.ts:51-55 | the sparse unique index: no two records carry the same share link, while any number carry none |
| FileModel.CatalogValid | backend/src/models/File.ts:18-62 | the collection invariant: every record well formed and the share-link index respected |
| FileModel.Create | backend/src/models/File.ts:18-62 | a document validates exactly when filename, original name and MIME type are non-blank after trimming, a size is given and path and owner are non-empty; a failure reports exactly the missing fields; an accepted record holds the trimmed strings, the size, path and owner given, `uploadTime` defaulted to now, no share fields, and is well formed |
| FileModel.CreateWithNameAndPath | backend/src/models/File.ts:18-50 | with a non-blank filename and a non-empty path, a draft validates exactly when the original name and type are non-blank after trimming and the owner is set, and the record holds the trimmed values, the size, the path, the owner and the current time |
| FileModel.UnsharedRecordsAreUnique | backend/src/models/File.ts:51-55 | records without a share link never clash on the sparse unique index |
| FileModel.InsertUnsharedKeepsValid | backend/src/models/File.ts:18-62 | saving a validated, unshared record keeps the collection valid |
| FileModel.RemoveKeepsValid | backend/src/models/File.ts:51-55 | removing a record keeps the collection valid |
| UserModel.Create | backend/src/models/User.ts:11-28 | a user validates exactly when the trimmed username has 3 to 30 UTF-16 units and the password at least 6; a failure names the username exactly when it is absent or out of bounds and the password exactly when it is absent or too short; an accepted document holds the trimmed username, the password and `createdAt` defaulted to now |
| UserModel.UsernameAcceptable | backend/src/models/User.ts:12-19 | `required`, `minlength: 3` and `maxlength: 30` on the (trimmed) username: non-empty, 3 to 30 UTF-16 units |
| UserModel.PasswordAcceptable | backend/src/models/User.ts:20-24 | `required` and `minlength: 6` on the untrimmed password |
| UserModel.WellFormed | backend/src/models/User.ts:11-24 | what a validated user satisfies: a trimmed username of 3 to 30 UTF-16 units and a password of at least 6 |
| UserModel.TableValid | backend/src/models/User.ts:12-16 | the table invariant: each user stored under its own username, every user well formed, and no two users sharing an id |
| UserModel.UsernamesUnique | backend/src/models/User.ts:12-16 | in a valid table two distinct entries have distinct usernames |
| UserModel.InsertKeepsValid | backend/src/models/User.ts:11-28 | adding a well-formed user under a fresh username and a fresh id keeps the table valid |
| UserModel.PlainCredentialsAccepted | backend/src/models/User.ts:11-28 | a username of 3 to 15 characters without whitespace at either end and a password of at least 6 are accepted, the username stored as given |
| UserModel.DefaultAccountValid | backend/src/config/index.ts:39-42 | the default account admin/admin123 passes the User schema's validation |
| Config.FirstMissing | backend/src/config/index.ts:16-20 | no result exactly when every listed variable is set; otherwise the first unset one, with all before it set |
| Config.OrDefault | backend/src/config/index.ts:23-43 | a set variable's value, otherwise the fallback |
| Config.UnsetWhenNotRequired | backend/src/config/index.ts:8-13 | in an environment holding only required names, a name that is not required is unset |
| Config.Load | backend/src/config/index.ts:8-43 | loading fails exactly when one of PORT, MONGODB_URI, JWT_SECRET, FILE_STORAGE_PATH is unset, naming the first such; otherwise the four take the environment's values and the optional ones their values or the defaults "7d", "50mb", "admin", "admin123" |
| Config.DefaultsWhenUnset | backend/src/config/index.ts:31-42 | with only the required variables set, the optional settings are the defaults |
| AuthMiddleware.SecondField | backend/src/middleware/auth.ts:24 | `header.split(" ")[1]`: the second field of the split, absent when there is none |
| AuthMiddleware.ExtractToken | backend/src/middleware/auth.ts:23-27 | `authHeader && authHeader.split(" ")[1]` with every falsy outcome (no header, the empty header, no second field, an empty one) read as no token |
| AuthMiddleware.Authenticate | backend/src/middleware/auth.ts:23-43 | 401 "Access token required" exactly when no token is extracted, 403 "Invalid or expired token" exactly when verification fails, and otherwise the request proceeds as the verified identity |
| AuthMiddleware.SecondFieldAfterFirstSpace | backend/src/middleware/auth.ts:24 | the second field is the text between the first and second spaces, and absent without a space |
| AuthMiddleware.BearerRoundTrip | backend/src/middleware/auth.ts:24-30 | "Bearer " + t yields exactly t if and only if t is non-empty and has no space |
| AuthMiddleware.SchemeIgnored | backend/src/middleware/auth.ts:24 | the first word of the header is not checked: any scheme carries the token |
| AuthMiddleware.DoubleSpaceIsMissing | backend/src/middleware/auth.ts:24-30 | two spaces after the scheme give an empty second field, which counts as no token |
| AuthMiddleware.MissingTokenNotVerified | backend/src/middleware/auth.ts:27-30 | without a token the answer is 401 whatever the verifier would say |
| AuthController.GenerateToken | backend/src/controllers/authController.ts:8-14 | the token signs the claims id and username of the user with the configured secret and lifetime |
| AuthController.LookupKey | backend/src/controllers/authController.ts:33-60 | the username a `findOne({ username })` matches: the schema's trim setter runs on the filter, so " admin" finds the user "admin" |
| AuthController.Success | backend/src/controllers/authController.ts:8-14 | a successful login signs the user's id and username with the configured secret and lifetime, and echoes the same id and username |
| AuthController.Decide | backend/src/controllers/authController.ts:17-72 | missing credentials exactly when either is absent or empty; provisioning exactly for the default pair with no stored default account; the default pair is never refused; otherwise success exactly for a stored user with that password |
| AuthController.DefaultLoginIgnoresStoredPassword | backend/src/controllers/authController.ts:27-57 | the default pair logs in as the stored default account whatever password it holds |
| AuthController.FailuresUniform | backend/src/controllers/authController.ts:59-72 | an unknown username and a wrong password get the same answer |
| AuthController.UserCollection.Login | backend/src/controllers/authController.ts:17-89 | the response for each decision, the default account inserted only when it validates, its id is free and the save succeeds (500 otherwise), and the table left unchanged in every other case |
| AuthController.DefaultLoginTwice | backend/src/controllers/authController.ts:28-57 | with the default account already stored, the first default login succeeds without writing; once a default login has succeeded the account is stored under its key, the second login gives the same response for the same user and writes nothing |
| AuthController.GetCurrentUser | backend/src/controllers/authController.ts:92-103 | 401 without a caller, otherwise the caller's id and username |
| FileController.RandomSuffix | backend/src/controllers/fileController.ts:28 | `Math.round(r * 1e9)` is at most 1e9 and within one half of r * 1e9 |
| FileController.StoredNameInsertsSuffix | backend/src/controllers/fileController.ts:27-31 | the stored name is the original name with "-time-random" inserted before its extension |
| FileController.StoredNameNotBlank | backend/src/controllers/fileController.ts:27-31 | the stored name is never blank, so it never fails the `filename` field's `required` check |
| FileController.StoredNameKeepsExtension | backend/src/controllers/fileController.ts:27-31 | the stored name has no '/' and keeps a non-empty original extension as its own |
| FileController.StoredName | backend/src/controllers/fileController.ts:27-31 | the disk name: the base name without its extension, "-", the time, "-", the rounded random suffix, then the extension |
| FileController.Resolved | backend/src/config/index.ts:36 | the upload directory in `path.resolve`'s normal form: absolute, no trailing '/' unless the root, no empty, "." or ".." segment |
| FileController.JoinPath | backend/src/controllers/fileController.ts:14-21 | where the parser writes the part: the upload directory joined with the stored name by one '/' |
| FileController.Disposition | backend/src/controllers/fileController.ts:152-155 | the Content-Disposition value: `attachment; filename="` , the original name, `"` |
| FileController.Summarize | backend/src/controllers/fileController.ts:108-111 | the listed entry: the record with path, owner and the share fields projected out |
| FileController.HeaderValueOk | backend/src/controllers/fileController.ts:151-155 | the header values `setHeader` accepts: tab, printable ASCII and code points 0x80 to 0xFF only |
| FileController.HeaderValueOkConcat | backend/src/controllers/fileController.ts:151-155 | a concatenation is an acceptable header value exactly when both parts are |
| FileController.DispositionHeaderOk | backend/src/controllers/fileController.ts:152-155 | the disposition header is acceptable to `setHeader` exactly when the original name is |
| FileController.InsertByTime | backend/src/controllers/fileController.ts:109-111 | the result is a permutation of the list plus the new entry: one more entry, the same multiset of entries with the new one added |
| FileController.InsertByTimeSorted | backend/src/controllers/fileController.ts:111 | insertion keeps a list sorted newest first |
| FileController.InsertByTimeDistinct | backend/src/controllers/fileController.ts:109-111 | inserting an entry with a new id keeps ids distinct |
| FileController.FileService.UploadDraftValidates | backend/src/controllers/fileController.ts:67-75 | the record built for an accepted part validates exactly when the original name and type are non-blank and the caller has an id; it then holds the trimmed name and type, the size, the stored path, the caller as owner and the current time |
| FileController.FileService.Receive | backend/src/controllers/fileController.ts:14-42 | a parser error or a named part over 50 MiB is refused and nothing stays on disk; no "file" part, or a part whose name is empty, is skipped and nothing is written; an accepted part is written under its stored name in the upload directory |
| FileController.FileService.Save | backend/src/controllers/fileController.ts:67-92 | with the new id a generated lower-case ObjectId, the record is added under it exactly when it validates, the id is new and the save succeeds; otherwise 500 and no change |
| FileController.FileService.Upload | backend/src/controllers/fileController.ts:45-94 | 500 "File upload failed"; 400 "No file uploaded" for no part or an empty-named one, with nothing written; 401 after the write; or 500 from the save; `Created` exactly when every step succeeds, with the record added and summarised; every record's file stays on disk |
| FileController.FileService.List | backend/src/controllers/fileController.ts:97-120 | 401 without a caller; otherwise exactly the caller's records, once each, newest first, without path, owner or share fields |
| FileController.FileService.Owns | backend/src/controllers/fileController.ts:137 | the owner-scoped lookup `findOne({ _id, owner })`: a record under that key whose owner is the caller |
| FileController.FileService.Download | backend/src/controllers/fileController.ts:123-164 | 401 without a caller, 500 when the id is not an ObjectId (the query's cast fails), 404 "File not found" exactly when the id is an ObjectId whose record (looked up by its lower-case form, as the cast ignores case) is not the caller's, 404 "File not found on disk" exactly when its file is gone, 500 for a header value `setHeader` refuses, otherwise the file under its type and original name |
| FileController.FileService.DownloadIgnoresHexCase | backend/src/controllers/fileController.ts:137 | two spellings of one ObjectId differing only in the case of their hex digits get the same answer |
| FileController.FileService.Delete | backend/src/controllers/fileController.ts:167-201 | 401, 500 for an id that is not an ObjectId, and 404 change nothing; for the caller's record, found by the id's lower-case form, the file is unlinked if present and then the record removed, a failure at either step giving 500 with the earlier steps kept; a full deletion keeps every remaining record's file on disk when no two records share a path beforehand |
| FileController.DeleteTwice | backend/src/controllers/fileController.ts:181-196 | the first delete succeeds exactly when the id is an ObjectId denoting (in any hex case) the caller's record; then a second delete answers 404 and leaves the state the first made; otherwise both answers are the same and nothing changes |
| FileController.UploadThenDownload | backend/src/controllers/fileController.ts:45-164 | with a newly generated lower-case ObjectId, a file uploaded by its owner is listed and served back to the owner under its trimmed type and original name, and is answered 404 to any other user |
| FileManagement.FetchFailureMessage | frontend/src/services/authService.ts:31-38 | a refused fetch reports the server's message, or "Failed to get files" when there is none; never an empty one |
| FileManagement.AfterFetch | frontend/src/pages/FileManagement.tsx:42-55 | loading ends in every case; success shows the returned files (or none); a refusal shows its message; a throw shows "Failed to fetch files" and keeps the list |
| FileManagement.InitialLoad | frontend/src/pages/FileManagement.tsx:36-55 | from the mount state the list is exactly what a successful fetch returned and empty otherwise |
| FileManagement.RefusedFetchShowsError | frontend/src/pages/FileManagement.tsx:46-50 | a refused fetch always leaves an error on the page |
| FileManagement.AfterUpload | frontend/src/pages/FileManagement.tsx:62-89 | a returned file goes in front of the unchanged list; a throw sets "File upload failed"; no choice or no file changes nothing |
| FileManagement.Without | frontend/src/pages/FileManagement.tsx:120 | the result holds exactly the entries with another id |
| FileManagement.WithoutConcat | frontend/src/pages/FileManagement.tsx:120 | filtering distributes over concatenation, so the remaining entries keep their order |
| FileManagement.WithoutAbsent | frontend/src/pages/FileManagement.tsx:120 | filtering out an id no entry has changes nothing |
| FileManagement.AfterDelete | frontend/src/pages/FileManagement.tsx:115-124 | a successful delete drops the id's entries; a failed one keeps the list and sets "File deletion failed" |
| FileManagement.DeleteUndoesUpload | frontend/src/pages/FileManagement.tsx:79-82 | deleting a just-uploaded file with a new id gives back the list before the upload |
| FileManagement.Find | frontend/src/pages/FileManagement.tsx:104 | nothing exactly when no entry has the id; otherwise the first entry with it |
| FileManagement.DownloadName | frontend/src/pages/FileManagement.tsx:102-105 | the matching entry's original name, or "file" when there is no match or the name is empty; never empty |
| FileManagement.DownloadNameAfterUpload | frontend/src/pages/FileManagement.tsx:81 | a just-uploaded file downloads under its own original name |
| FileManagement.FormatFileSize | frontend/src/pages/FileManagement.tsx:127-128 | zero bytes, and only zero, reads "0 Bytes" |

## Left out

- HTTP, Express routing, JSON bodies, response streaming and console logging: responses are datatypes holding the status and the message.
- An `_id` of 12 characters is also castable by older BSON versions; the model follows the current rule of 24 hexadecimal digits. The caller's id, cast for the `owner` condition, is taken to be castable, as every token the service issues carries a stored user's `_id`.
- FileController.RandomSuffix: rounds the exact real product `r * 1e9`, not the double-precision one JavaScript computes; the two can differ by one at a half.
- Database queries that throw (`findOne`, `find`) for any reason other than an uncastable `_id` are not modelled. Only a failing save, `unlinkSync` or `deleteOne` is a parameter. The query failure would give the same 500 in every handler.
- Document serialization is not part of this model. Listed entries carry the record's id as `id`. The JSON Mongoose produces for a query result names it `_id` (plus `__v`), while the page reads `id`.
- MongoDB's sort does not fix the order of records with equal upload times; `List` promises newest first and leaves ties in any order.
- JWT signing and verification are symbolic. The verifier is a function parameter. Expiry and the `iat`/`exp` claims are not modelled.
- Passwords are stored and compared in plain text, as in the source. No hashing is modelled.
- `parseInt` of PORT and `path.resolve` of FILE_STORAGE_PATH are not modelled. `Settings` keeps the raw strings, and `FileService` takes a directory already in the normal form `path.resolve` returns (`Resolved`), so that joining a name to it needs no normalisation.
- `dotenv` reading a `.env` file is not modelled. The environment is a map given to `Config.Load`.
- Creating the upload directory at start-up is not modelled.
- MAX_FILE_SIZE is loaded into `Settings` but, as in the source, not used. The parser's 50 MiB limit is a constant.
- File contents, partial writes and the parser's stream are not modelled. A part is a name, a type and a size; the disk is the set of paths present.
- Interleaving of concurrent requests is not modelled. An example is two first logins with the default account racing on the unique username index.
- `FormatFileSize`: sizes other than zero go through floating-point logarithms and `toFixed`; the model returns no text for them.
- The page's download request, the blob link, the "File download failed" error, logout, rendering and the client's 401 redirect are not modelled. The download-name lookup is.
- Dates are integers (milliseconds). The page's `uploadTime` is the string the JSON carries.
