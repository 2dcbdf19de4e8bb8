# Virtual filesystem of the study-material server, in Dafny

The server keeps a folder/file hierarchy as a flat MongoDB collection of
`Content` records `(parentPath, name, type, path, fileId)` with a unique index
on `(parentPath, name)`, and keeps file bytes in a GridFS bucket keyed by
`fileId`. This project models that layer and the public page's folder
navigation:

- `wrappers.dfy` — `Option` and `Result`.
- `paths.dfy` (module `Paths`) — how upload and create-folder canonicalise a
  path: strip the outer slashes, then prefix `ROOT/` unless the text already
  starts with the characters `ROOT`. Also how delete and stream prefix a
  request path and cut it at its last `/`, create-folder's
  `split('/')`/`pop()`/`join('/')` (proved to cut at the same place), the
  `ROOT/` removal of the legacy retry, and the `.pdf` test of stream.
- `content_model.dfy` (module `ContentModel`) — the `Content` schema as a
  datatype. `required` strings must be non-empty, an absent `parentPath`
  becomes `ROOT`, and `type` is `Folder` or `File`. Also the unique index as
  the predicate `Unique`, `findOne` as `Find`, `save()` as `Save` (validation,
  then the index, then append) and `deleteOne` as `RemoveAt`.
- `tree_builder.dfy` (module `TreeBuilder`) — `buildTree` of GET /structure:
  recursive filtering on `parentPath`. It terminates because a folder's
  address is strictly longer than its parent's. The module proves what the
  tree shows and what it never shows.
- `content_service.dfy` (module `ContentService`) — the class `Library`
  holding both stores: the record sequence, the blob map, the next fresh blob
  id, and whether the bucket is open. Its methods are the handlers upload,
  create-folder, delete, stream and structure, and they update the stores in
  the route's order. The invariants are the unique index, the required
  fields, fresh ids, no blob id on a folder record, and (when it holds) "every referenced blob exists and
  no two records share one". Lemmas show that stored paths can be found
  again, both through the exact lookup and through the legacy fallback.
- `public_view.dfy` (module `PublicView`) — `getCurrentItems` as a loop
  proved against a recursive walk, plus navigate, back, breadcrumbs and home.
  A lemma ties the client's walk to the server's tree.

The quirks of the routes are kept:

- `startsWith('ROOT')` is a raw prefix test, so `ROOTX/a` counts as rooted.
- A root-level file stores `path = fileName`.
- A failed metadata save leaves the blob unreferenced (`Orphan`).
- Deleting a folder leaves its contents (`FolderDeleteKeepsChildren`).

One consequence of the first two together is proved rather than hidden
(`RootNamedFileUnreachable`, `RootNamedFileExample`). A file uploaded to the
root whose name itself starts with `ROOT`, such as `ROOTnotes.pdf`, is stored
with that bare name as its path. Stream and delete then see a rooted path
without a slash, split it into `("", name)`, and find nothing.

Where the schema and the routes meet, the code decides. `required: true` on a
mongoose `String` also rejects `""`. So a create-folder path with no slash
after canonicalisation (`ROOT`, `ROOTX`) gets parent `""` and fails
validation, which gives a 500 reply, not the 400 "Invalid folder name". That
400 branch cannot be reached, because a canonical path never ends in `/`
(`FolderNameNeverEmpty`). The model keeps the branch as written.

## Model

| member | source | states |
|---|---|---|
| `Paths.Strip` | server/routes/content.js:87 | the result neither starts nor ends with `/`; a string without outer slashes is unchanged |
| `Paths.StripIsInnerPart` | server/routes/content.js:87 | the result is a contiguous part of the input with only `/` before and after it, so exactly the outer slash runs are removed |
| `Paths.Clean` | server/routes/content.js:87-92 | the canonical form always starts with `ROOT`, never begins or ends with `/`, and equals the stripped input whenever that already starts with `ROOT` |
| `Paths.UploadParent` | server/routes/content.js:85-92 | the parent upload stores starts with `ROOT` and does not end with `/` |
| `Paths.CleanIdempotent` | server/routes/content.js:146-149 | canonicalising a canonical path changes nothing |
| `Paths.CleanKeepsRooted` | server/routes/content.js:146-149 | a path already starting with `ROOT` and without outer slashes is kept as given |
| `Paths.UploadParentDefault` | server/routes/content.js:85-92 | a missing, empty or all-slash upload path names the root `ROOT` |
| `Paths.CleanPrefixesUnrooted` | server/routes/content.js:90-92 | a non-empty stripped path not starting with `ROOT` becomes `ROOT/` followed by it |
| `Paths.RequestPath` | server/routes/content.js:185-186 | `ROOT/` is prepended exactly when the raw path does not start with `ROOT`, and nothing else changes |
| `Paths.LastSlash` | server/routes/content.js:188 | the index of the last `/` (no `/` after it), or -1 when there is none |
| `Paths.LastSlashUnique` | server/routes/content.js:188 | an index holding `/` with no `/` after it is the one `lastIndexOf` returns |
| `Paths.SplitAtLastSlash` | server/routes/content.js:188-190 | the name holds no `/`; parent + `/` + name rebuilds the path when it has a slash; otherwise the parent is `""` and the name is the whole path |
| `Paths.SplitOn` | server/routes/content.js:151 | `split('/')` gives at least one piece, no piece holds `/`, and a single piece is the whole string |
| `Paths.Join` | server/routes/content.js:153 | `join('/')` starts with the first piece and, with two or more pieces, puts a `/` right after it |
| `Paths.JoinCons` | server/routes/content.js:153 | joining a head before a non-empty tail is the head, a `/`, then the joined tail |
| `Paths.SplitPopJoin` | server/routes/content.js:151-153 | the popped folder name holds no `/`; a path without `/` gives parent `""` and itself as name |
| `Paths.SplitJoin` | server/routes/content.js:243-245 | splitting parent + `/` + a slash-free name gives back both parts |
| `Paths.JoinSplitOn` | server/routes/content.js:151-153 | joining the pieces of `split('/')` with `/` gives the string back |
| `Paths.SplitPopJoinIsLastSlash` | server/routes/content.js:151-153 | create-folder's split/pop/join cuts a path exactly where lastIndexOf/substring do |
| `Paths.FolderNameNeverEmpty` | server/routes/content.js:155 | the folder name taken from a canonical path is never empty, so the 400 "Invalid folder name" cannot occur |
| `Paths.FolderParentRooted` | server/routes/content.js:151-153 | the parent is `""` exactly when the canonical path has no slash; otherwise it starts with `ROOT` and parent + `/` + name is the canonical path |
| `Paths.LegacyParent` | server/routes/content.js:198 | the fallback parent is the parent with one leading `ROOT/` removed |
| `Paths.IsPdfPath` | server/routes/content.js:270 | a path counts as PDF exactly when it has at least four characters and its last four, lower-cased, are `.pdf` |
| `Paths.PdfCaseInsensitive` | server/routes/content.js:270 | `.pdf`, `.PDF` and `.Pdf` endings are recognised as PDF and `.txt` is not |
| `ContentModel.NewContent` | server/models/Content.js:4-8 | an absent `parentPath` defaults to `ROOT`; a given one and the other fields are kept |
| `ContentModel.Find` | server/models/Content.js:36-37 | `findOne`: the first record with the pair, and none exactly when no record has it |
| `ContentModel.FindUnique` | server/models/Content.js:36-37 | under the unique index every record is what `findOne` returns for its own pair |
| `ContentModel.Save` | server/models/Content.js:9-24 | validation fails exactly when a required string is empty; the index refuses exactly an existing pair; otherwise the record is appended and uniqueness is kept |
| `ContentModel.SaveTwiceRejected` | server/routes/content.js:165-171 | saving the same pair a second time is refused as a duplicate key |
| `ContentModel.RemoveAt` | server/routes/content.js:227 | exactly the record at the position leaves; the others keep their order; uniqueness is kept |
| `TreeBuilder.Children` | server/routes/content.js:41-42 | a record is listed under an address exactly when it is in the snapshot and its `parentPath` is that address |
| `TreeBuilder.BuildTree` | server/routes/content.js:40-65 | one node per record filed under the address |
| `TreeBuilder.BuildTreeAt` | server/routes/content.js:43-61 | the i-th node describes the i-th such record: a folder gets path parent + `/` + name and the tree under that path as children; a file gets its stored path and blob id |
| `TreeBuilder.ChildrenAppend` | server/routes/content.js:41-42 | a newly saved record comes last among its siblings |
| `TreeBuilder.ChildrenRemoveAt` | server/routes/content.js:41-42 | deleting a record removes it, and only it, from its siblings |
| `TreeBuilder.ChildrenNamesDistinct` | server/models/Content.js:36-37 | under the unique index no two nodes of one folder share a name |
| `TreeBuilder.TreeShowsReachableOnly` | server/routes/content.js:40-65 | every node at every depth comes from a record whose parent chain reaches the starting address |
| `TreeBuilder.LegacyRecordsHidden` | server/routes/content.js:65 | every node of the structure comes from a record filed under `ROOT` or below it, so legacy records never show |
| `ContentService.Lookup` | server/routes/content.js:194-201 | exact match first; one retry with `ROOT/` removed only on a miss and only for a parent starting with `ROOT/`; never otherwise |
| `ContentService.Target` | server/routes/content.js:185-190 | the slash-free name and parent that rebuild the request path, with parent `""` when there is no slash |
| `ContentService.Resolve` | server/routes/content.js:185-201 | a found record is in the collection, carries the name cut from the request path, and (when the path has a slash) its parent + `/` + name is the request path, directly or after the `ROOT/` prefix of the fallback |
| `ContentService.StoredFilePath` | server/routes/content.js:121 | at the root the stored path is the bare name; elsewhere, for a slash-free name, it splits at its last `/` back into parent and name |
| `ContentService.FileRecord` | server/routes/content.js:117-123 | the file record: canonical parent, original name, type file, the new blob id, path = name at the root and parent + `/` + name elsewhere |
| `ContentService.FolderRecord` | server/routes/content.js:158-163 | the folder record: parent and name from the split, path = canonical path, no blob id |
| `ContentService.WriteKeepsInvariants` | server/routes/content.js:97-111 | writing a blob under the next id keeps the invariants and uses an id no record holds |
| `ContentService.SaveFileKeepsInvariants` | server/routes/content.js:117-125 | saving the record of the fresh blob keeps uniqueness, required fields and blob liveness |
| `ContentService.SaveFolderKeepsInvariants` | server/routes/content.js:158-165 | saving a folder record keeps all invariants |
| `ContentService.RemovedBlobUnheld` | server/routes/content.js:212-227 | when every blob has at most one owner, no remaining record refers to the removed record's blob |
| `ContentService.FolderHoldsNoBlob` | server/routes/content.js:158-163 | under the invariants a folder record has no blob id |
| `ContentService.RemoveKeepsInvariants` | server/routes/content.js:209-227 | deleting the blob and then the record keeps all invariants |
| `ContentService.Library.constructor` | server/routes/content.js:9-17 | empty stores, bucket not yet open |
| `ContentService.Library.Open` | server/routes/content.js:12-17 | the bucket becomes available |
| `ContentService.Library.Structure` | server/routes/content.js:35-66 | the reply is the tree under `ROOT` of the current collection |
| `ContentService.Library.Upload` | server/routes/content.js:75-139 | no file is a 400 and no bucket a 500, both with no change; a stream error is a 500 with no change; otherwise the blob is written under a fresh id first, then the record is saved, or on failure a 500 leaves the blob orphaned and the collection unchanged |
| `ContentService.Library.StoreThenSave` | server/routes/content.js:97-132 | the blob is written under an id no store knew, then the record saved; on a rejected save a 500 leaves the blob orphaned and the records unchanged; the invariants are kept |
| `ContentService.Library.CreateFolder` | server/routes/content.js:142-174 | a missing path is a 400; the folder record is saved; an existing pair is a 400 "Folder already exists" and a validation failure a 500, both leaving the collection unchanged |
| `ContentService.Library.Delete` | server/routes/content.js:177-234 | a missing path is a 400 and an unresolved one a 404; a file with a blob and no bucket is a 500; otherwise exactly the resolved record is removed and its blob is dropped, unless the bucket's delete throws, in which case the blob stays behind orphaned and the record is still removed; nothing else changes |
| `ContentService.Library.RemoveFound` | server/routes/content.js:209-229 | for a resolved record: the 500 "Storage not initialized" case, or the blob delete (swallowed on failure) followed by the removal of exactly that record, keeping the invariants |
| `ContentService.Library.Stream` | server/routes/content.js:237-286 | a 404 when nothing resolves or the record has no blob id (so a folder is always a 404 "File not found"); a 500 without a bucket; a 404 when the blob is missing; otherwise the blob's bytes inline, typed `application/pdf` exactly when the lower-cased path ends in `.pdf`; no store changes |
| `ContentService.SavedRecordFound` | server/models/Content.js:36-37 | a saved record is what `findOne` returns for its pair |
| `ContentService.RootedPrefix` | server/routes/content.js:186 | a path built on a rooted parent is itself rooted, so it gets no second prefix |
| `ContentService.StoredPathTarget` | server/routes/content.js:121 | for a slash-free name under a parent starting with `ROOT`, the stored file path splits back into the parent and name it was saved under, except for a root file whose name starts with `ROOT` |
| `ContentService.UploadedFileResolves` | server/routes/content.js:117-125 | after an upload of a file whose name holds no `/`, and unless it is a root upload whose name starts with `ROOT`, stream and delete find the new record by the path stored for it |
| `ContentService.UploadThenStream` | server/routes/content.js:75-139 | for a file whose name holds no `/`, and unless it is a root upload whose name starts with `ROOT`, an upload that succeeds is followed by a stream of the stored path that returns exactly the uploaded bytes inline; an upload that fails is a 500 |
| `ContentService.RootNamedFileUnreachable` | server/routes/content.js:121 | a root file whose name starts with `ROOT` is stored but can never be found by its stored path |
| `ContentService.RootNamedFileExample` | server/routes/content.js:121 | `ROOTnotes.pdf` uploaded to an empty root is saved and then not found |
| `ContentService.CreatedFolderResolves` | server/routes/content.js:151-165 | a created folder is found by its stored path |
| `ContentService.UnrootedPrefix` | server/routes/content.js:186 | a path built on a parent not starting with `ROOT` does not start with `ROOT` either |
| `ContentService.LegacyRecordResolves` | server/routes/content.js:194-201 | a legacy record under an unprefixed parent is found through the fallback by its own parent + `/` + name, when no record sits at the prefixed pair |
| `ContentService.DeletedRecordGone` | server/routes/content.js:194-227 | after deletion no record keeps the deleted pair; the same path then resolves to nothing, except to a legacy twin when the deleted record was an exact match |
| `ContentService.LookupAfterRemove` | server/routes/content.js:194-227 | the same fact for the parent and name cut from the path: removal drops the found pair, and only the legacy twin can still be found |
| `ContentService.FolderDeleteKeepsChildren` | server/routes/content.js:227 | deleting a folder keeps every record filed directly under its address (no cascade) |
| `PublicView.FirstFolder` | client/src/pages/PublicView.jsx:32 | the first item that is a folder with the name; none exactly when no folder has it, so files are never chosen |
| `PublicView.ItemsAt` | client/src/pages/PublicView.jsx:29-40 | the empty position shows the whole structure, and an empty structure shows nothing |
| `PublicView.CurrentItems` | client/src/pages/PublicView.jsx:29-40 | the loop returns exactly the walk along the position |
| `PublicView.HomeShowsTop` | client/src/pages/PublicView.jsx:81 | the home icon's empty position shows the whole structure |
| `PublicView.Navigate` | client/src/pages/PublicView.jsx:42-44 | the folder is appended and earlier entries are unchanged |
| `PublicView.Back` | client/src/pages/PublicView.jsx:46-50 | only the last entry is removed; an empty position stays empty |
| `PublicView.Crumb` | client/src/pages/PublicView.jsx:87 | the position is truncated to its first idx + 1 entries |
| `PublicView.ItemsAtConcat` | client/src/pages/PublicView.jsx:31-38 | walking along two positions in turn is walking along both joined |
| `PublicView.ItemsAtNavigate` | client/src/pages/PublicView.jsx:42-44 | entering a folder adds one step to what is shown |
| `PublicView.NavigateShowsChildren` | client/src/pages/PublicView.jsx:32-34 | clicking a shown folder with no earlier namesake shows its children |
| `PublicView.FilesNeverEntered` | client/src/pages/PublicView.jsx:32 | a name only files carry leads to an empty view |
| `PublicView.FailedStepEmpty` | client/src/pages/PublicView.jsx:33-37 | once a step finds no folder, the view is empty |
| `PublicView.CrumbUndoesNavigate` | client/src/pages/PublicView.jsx:87 | the breadcrumb of the previous last entry returns to the position before navigating |
| `PublicView.CrumbShowsPrefix` | client/src/pages/PublicView.jsx:87 | a breadcrumb shows what was on screen when that folder was entered |
| `PublicView.FirstFolderAt` | client/src/pages/PublicView.jsx:32 | a folder with no earlier namesake is the one found |
| `PublicView.BuiltNamesDistinct` | server/models/Content.js:36-37 | the nodes the server builds under one address carry distinct names |
| `PublicView.StepIntoBuiltFolder` | client/src/pages/PublicView.jsx:31-34 | on the server's structure, clicking a folder shows exactly the server's subtree of it |

## Left out

- `verifyAdmin` and the auth routes: a shared-secret comparison in front of the handlers; every modelled handler assumes the caller got past it.
- GridFS, multer and `Readable` streaming: the bucket is a map from id to bytes, and a blob write is one step. A stream error during upload is the parameter `streamFails`, with no partial blob.
- ObjectId generation: blob ids are fresh naturals from a counter. Record `_id`s are positions in the sequence. `createdAt` is not modelled.
- The ObjectId conversion before a blob delete: deleting a missing id is a no-op on the map. A delete that throws on a present blob is the parameter `blobDeleteFails` of `Delete`; the route swallows it, so the blob stays and the record is still removed.
- The error text of a rejected save is abbreviated to the start of the database library's message; exceptions from `findOne`, `deleteOne` and the outer `try` (the catch-all 500 replies) are not modelled, as they come from the database driver.
- Concurrency: requests run one at a time, so there are no races on the unique index and no interleaving inside the upload `finish` callback.
- URL percent-decoding by Express and the `.+` route pattern of stream: the handler receives the decoded path.
- `Paths.ToLower` lower-cases ASCII letters only; JavaScript's `toLowerCase` maps more characters, but none outside ASCII lower-cases to `.`, `p`, `d` or `f`, so the PDF test is unaffected.
- `PublicView.ItemsAt` does not model a folder node without a `children` array: the server's tree always sends one (an empty array is truthy), so that branch of the client cannot be reached with its data.
- React rendering, loading state, the file viewer, the dashboard, the toast context and the game page: UI with no state rules of the layer above.
- `ContentService.StoredFilePath` is kept as written (the bare name at the root); the path a client can use for a root file named `ROOT…` is not corrected in the model.
