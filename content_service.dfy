/**
 * The content routes (server/routes/content.js) over their two stores: the
 * metadata collection, a sequence of Content records, and the GridFS bucket,
 * a map from blob id to bytes. Each handler is a method that reads and
 * updates both stores in the order the route does.
 */
module ContentService {
  import opened Wrappers
  import opened Paths
  import opened ContentModel
  import opened TreeBuilder

  /** The file part of a multipart upload, as multer hands it over. */
  datatype UploadedFile = UploadedFile(originalName: string, content: seq<byte>)

  /** What a route sends back: its JSON body, or the streamed bytes with their headers. */
  datatype Reply =
    | Done(message: string)
    | Uploaded(fileId: BlobId)
    | Streamed(body: seq<byte>, contentType: Option<string>, disposition: string)
    | Fail(status: nat, error: string)

  /** The message of a rejected `save()`, as the database library words its start. */
  function SaveErrorMessage(e: SaveError): string {
    match e
    case ValidationFailed => "Content validation failed"
    case DuplicateKey => "E11000 duplicate key error"
  }

  // ---------------------------------------------------------------------------
  // Lookup with the legacy fallback (content.js lines 194-201 and 251-258)
  // ---------------------------------------------------------------------------

  /**
   * The exact (parent, name) lookup, then, only when it misses and the
   * parent starts with "ROOT/", one retry with that prefix removed once.
   */
  function Lookup(records: seq<Record>, parent: string, name: string): (r: Option<nat>)
    ensures r.Some? ==> r.value < |records| && records[r.value].name == name
    ensures r.Some? ==>
              (records[r.value].parentPath == parent ||
               (StartsWith(parent, RootSlash) && records[r.value].parentPath == LegacyParent(parent)))
    ensures (exists j :: 0 <= j < |records| && Matches(records[j], parent, name)) ==>
              r.Some? && records[r.value].parentPath == parent
    ensures r.None? <==>
              (forall j :: 0 <= j < |records| ==> !Matches(records[j], parent, name)) &&
              (StartsWith(parent, RootSlash) ==>
                forall j :: 0 <= j < |records| ==> !Matches(records[j], LegacyParent(parent), name))
    ensures !StartsWith(parent, RootSlash) ==> r == Find(records, parent, name)
  {
    match Find(records, parent, name)
    case Some(k) => Some(k)
    case None =>
      if StartsWith(parent, RootSlash) then Find(records, LegacyParent(parent), name) else None
  }

  /** Where delete and stream look for a request path: the prefixed path split at its last '/'. */
  function Target(raw: string): (t: (string, string))
    ensures '/' !in t.1
    ensures t.0 + "/" + t.1 == RequestPath(raw) || (t.0 == "" && t.1 == RequestPath(raw))
    ensures !StartsWith(raw, Root) ==> t.0 + "/" + t.1 == RequestPath(raw)
  {
    SplitAtLastSlash(RequestPath(raw))
  }

  /**
   * The record delete and stream resolve a raw request path to. When the
   * request path holds a slash, the found record's own parent and name
   * rebuild it, with "ROOT/" in front for a record found by the fallback.
   */
  function Resolve(records: seq<Record>, raw: string): (r: Option<nat>)
    ensures r.Some? ==> r.value < |records| && records[r.value].name == Target(raw).1
    ensures r.Some? && LastSlash(RequestPath(raw)) >= 0 ==>
              var rec := records[r.value];
              rec.parentPath + "/" + rec.name == RequestPath(raw) ||
              RootSlash + rec.parentPath + "/" + rec.name == RequestPath(raw)
  {
    var (parent, name) := Target(raw);
    Lookup(records, parent, name)
  }

  // ---------------------------------------------------------------------------
  // The records the handlers build
  // ---------------------------------------------------------------------------

  /**
   * The stored path of an uploaded file (content.js line 121): the bare file
   * name at the root, parent + "/" + name elsewhere.
   */
  function StoredFilePath(parent: string, fileName: string): (p: string)
    ensures parent == Root ==> p == fileName
    ensures parent != Root && '/' !in fileName ==> SplitAtLastSlash(p) == (parent, fileName)
  {
    if parent == Root then fileName
    else
      var p := parent + "/" + fileName;
      assert '/' !in fileName ==> SplitAtLastSlash(p) == (parent, fileName) by {
        if '/' !in fileName {
          SplitJoin(parent, fileName);
        }
      }
      p
  }

  /** The record upload saves after the blob write finishes (content.js lines 117-123). */
  function FileRecord(parent: string, fileName: string, id: BlobId): (r: Record)
    ensures r.kind == File && r.fileId == Some(id)
    ensures r.parentPath == parent && r.name == fileName
    ensures r.path == (if parent == Root then fileName else parent + "/" + fileName)
  {
    NewContent(Some(parent), fileName, File, StoredFilePath(parent, fileName), Some(id))
  }

  /** The record create-folder saves (content.js lines 158-163): no blob id. */
  function FolderRecord(parent: string, name: string, cleanPath: string): (r: Record)
    ensures r.kind == Folder && r.fileId.None?
    ensures r.parentPath == parent && r.name == name && r.path == cleanPath
  {
    NewContent(Some(parent), name, Folder, cleanPath, None)
  }

  // ---------------------------------------------------------------------------
  // The two stores and the handlers
  // ---------------------------------------------------------------------------

  /**
   * The collection keeps the unique index and the required fields, no blob
   * id at or above nextId is in use, and only file records hold a blob id
   * (create-folder never sets one).
   */
  ghost predicate Indexed(records: seq<Record>, blobs: map<BlobId, seq<byte>>, nextId: BlobId) {
    Unique(records) &&
    (forall i :: 0 <= i < |records| ==> HasRequired(records[i])) &&
    (forall id :: id in blobs ==> id < nextId) &&
    (forall i :: 0 <= i < |records| && records[i].fileId.Some? ==> records[i].fileId.value < nextId) &&
    (forall i :: 0 <= i < |records| && records[i].kind == Folder ==> records[i].fileId.None?)
  }

  /**
   * Every blob id held by a record names a stored blob, and no two records
   * hold the same one.
   */
  ghost predicate Live(records: seq<Record>, blobs: map<BlobId, seq<byte>>) {
    (forall i :: 0 <= i < |records| && records[i].fileId.Some? ==> records[i].fileId.value in blobs) &&
    (forall i, j :: 0 <= i < j < |records| && records[i].fileId.Some? && records[j].fileId.Some? ==>
      records[i].fileId.value != records[j].fileId.value)
  }

  /** The blob write of upload: a fresh id receives the bytes. */
  lemma {:induction false} WriteKeepsInvariants(records: seq<Record>, blobs: map<BlobId, seq<byte>>, nextId: BlobId, content: seq<byte>)
    requires Indexed(records, blobs, nextId)
    ensures nextId !in blobs
    ensures Indexed(records, blobs[nextId := content], nextId + 1)
    ensures Live(records, blobs) ==> Live(records, blobs[nextId := content])
    ensures forall i :: 0 <= i < |records| ==> records[i].fileId != Some(nextId)
  {
  }

  /** Saving the record of a freshly written blob keeps both invariants. */
  lemma {:induction false} SaveFileKeepsInvariants(records: seq<Record>, blobs: map<BlobId, seq<byte>>, nextId: BlobId, rec: Record)
    requires Indexed(records, blobs, nextId + 1)
    requires forall i :: 0 <= i < |records| && records[i].fileId.Some? ==> records[i].fileId.value < nextId
    requires rec.fileId == Some(nextId) && nextId in blobs && rec.kind == File
    requires Save(records, rec).Success?
    ensures Indexed(records + [rec], blobs, nextId + 1)
    ensures Live(records, blobs) ==> Live(records + [rec], blobs)
  {
    var rs := records + [rec];
    assert forall i :: 0 <= i < |records| ==> rs[i] == records[i];
  }

  /** Saving a folder record, which holds no blob, keeps both invariants. */
  lemma {:induction false} SaveFolderKeepsInvariants(records: seq<Record>, blobs: map<BlobId, seq<byte>>, nextId: BlobId, rec: Record)
    requires Indexed(records, blobs, nextId)
    requires rec.fileId.None? && Save(records, rec).Success?
    ensures Indexed(records + [rec], blobs, nextId)
    ensures Live(records, blobs) ==> Live(records + [rec], blobs)
  {
    var rs := records + [rec];
    assert forall i :: 0 <= i < |records| ==> rs[i] == records[i];
  }

  /** Removing record k, and with it the blob it holds, keeps both invariants. */
  lemma {:induction false} RemoveKeepsInvariants(records: seq<Record>, blobs: map<BlobId, seq<byte>>, nextId: BlobId, k: nat, dropBlob: bool)
    requires Indexed(records, blobs, nextId) && k < |records|
    requires dropBlob ==> records[k].fileId.Some?
    ensures var blobs' := if dropBlob then blobs - {records[k].fileId.value} else blobs;
            Indexed(RemoveAt(records, k), blobs', nextId) &&
            (Live(records, blobs) ==> Live(RemoveAt(records, k), blobs'))
  {
    var rs := RemoveAt(records, k);
    var blobs' := if dropBlob then blobs - {records[k].fileId.value} else blobs;
    assert forall i :: 0 <= i < |rs| ==> rs[i] == records[if i < k then i else i + 1];
    if Live(records, blobs) {
      forall i | 0 <= i < |rs| && rs[i].fileId.Some? ensures rs[i].fileId.value in blobs' {
        var o := if i < k then i else i + 1;
        assert rs[i] == records[o] && o != k;
      }
      forall i, j | 0 <= i < j < |rs| && rs[i].fileId.Some? && rs[j].fileId.Some?
        ensures rs[i].fileId.value != rs[j].fileId.value
      {
        assert rs[i] == records[if i < k then i else i + 1];
        assert rs[j] == records[if j < k then j else j + 1];
      }
    }
  }

  /**
   * With every blob held by one record at most, the blob of a removed record
   * is held by no record that remains.
   */
  lemma {:induction false} RemovedBlobUnheld(records: seq<Record>, blobs: map<BlobId, seq<byte>>, k: nat)
    requires Live(records, blobs) && k < |records| && records[k].fileId.Some?
    ensures forall i :: 0 <= i < |RemoveAt(records, k)| ==> RemoveAt(records, k)[i].fileId != records[k].fileId
  {
    var rs := RemoveAt(records, k);
    forall i | 0 <= i < |rs| ensures rs[i].fileId != records[k].fileId {
      var o := if i < k then i else i + 1;
      assert rs[i] == records[o] && o != k;
      if o < k {
        assert records[o].fileId.Some? ==> records[o].fileId.value != records[k].fileId.value;
      } else {
        assert records[o].fileId.Some? ==> records[k].fileId.value != records[o].fileId.value;
      }
    }
  }

  /** Under the invariant a folder record holds no blob id. */
  lemma {:induction false} FolderHoldsNoBlob(records: seq<Record>, blobs: map<BlobId, seq<byte>>, nextId: BlobId, k: nat)
    requires Indexed(records, blobs, nextId) && k < |records| && records[k].kind == Folder
    ensures records[k].fileId.None?
  {
  }

  class Library {
    /** The Content collection, in insertion order. */
    var records: seq<Record>
    /** The GridFS bucket: stored blobs by id. */
    var blobs: map<BlobId, seq<byte>>
    /** The id the next blob write receives; ids are never reused. */
    var nextId: BlobId
    /** Whether `gfsBucket` has been assigned (the connection has opened). */
    var bucketReady: bool

    ghost predicate Valid()
      reads this
    {
      Indexed(records, blobs, nextId)
    }

    ghost predicate BlobsLive()
      reads this
    {
      Live(records, blobs)
    }

    /** Blobs that no record refers to. */
    ghost predicate Orphan(id: BlobId)
      reads this
    {
      id in blobs && forall i :: 0 <= i < |records| ==> records[i].fileId != Some(id)
    }

    constructor ()
      ensures Valid() && BlobsLive()
      ensures records == [] && blobs == map[] && !bucketReady
    {
      records := [];
      blobs := map[];
      nextId := 0;
      bucketReady := false;
    }

    /** `conn.once('open', ...)` assigns the bucket. */
    method Open()
      requires Valid()
      modifies this`bucketReady
      ensures Valid() && bucketReady
    {
      bucketReady := true;
    }

    /** GET /structure: the tree under "ROOT" built from the whole collection. */
    method Structure() returns (nodes: seq<Node>)
      ensures nodes == BuildTree(records, Root)
      ensures |nodes| == |Children(records, Root)|
    {
      nodes := BuildTree(records, Root);
    }

    /**
     * POST /upload (content.js lines 75-139). `rawPath` is the form's `path`
     * field ("" when absent); `streamFails` says whether piping the buffer
     * into the bucket reports an error.
     */
    method Upload(file: Option<UploadedFile>, rawPath: string, streamFails: bool) returns (reply: Reply)
      requires Valid()
      modifies this
      ensures Valid() && bucketReady == old(bucketReady)
      ensures old(BlobsLive()) ==> BlobsLive()
      ensures file.None? ==>
                reply == Fail(400, "No file uploaded") && unchanged(this)
      ensures file.Some? && !old(bucketReady) ==>
                reply == Fail(500, "GridFS not initialized") && unchanged(this)
      ensures file.Some? && old(bucketReady) && streamFails ==>
                reply == Fail(500, "Error uploading file") && unchanged(this)
      ensures file.Some? && old(bucketReady) && !streamFails ==>
                var id := old(nextId);
                var rec := FileRecord(UploadParent(rawPath), file.value.originalName, id);
                id !in old(blobs) && blobs == old(blobs)[id := file.value.content] &&
                match Save(old(records), rec)
                case Success(rs) => records == rs && reply == Uploaded(id)
                case Failure(e) =>
                  records == old(records) && Orphan(id) &&
                  reply == Fail(500, "File stored but metadata failed: " + SaveErrorMessage(e))
    {
      if file.None? {
        return Fail(400, "No file uploaded");
      }
      if !bucketReady {
        return Fail(500, "GridFS not initialized");
      }
      var parentPath := UploadParent(rawPath);
      if streamFails {
        return Fail(500, "Error uploading file");
      }
      reply := StoreThenSave(parentPath, file.value.originalName, file.value.content);
    }

    /**
     * The blob write and its `finish` callback (content.js lines 97-132):
     * the bytes are stored under a fresh id first, then the file record is
     * saved; a failed save leaves the blob without a record.
     */
    method StoreThenSave(parentPath: string, fileName: string, content: seq<byte>) returns (reply: Reply)
      requires Valid()
      modifies this`blobs, this`nextId, this`records
      ensures Valid()
      ensures old(BlobsLive()) ==> BlobsLive()
      ensures var id := old(nextId);
              var rec := FileRecord(parentPath, fileName, id);
              id !in old(blobs) && blobs == old(blobs)[id := content] &&
              match Save(old(records), rec)
              case Success(rs) => records == rs && reply == Uploaded(id)
              case Failure(e) =>
                records == old(records) && Orphan(id) &&
                reply == Fail(500, "File stored but metadata failed: " + SaveErrorMessage(e))
    {
      var id := nextId;
      WriteKeepsInvariants(records, blobs, id, content);
      blobs := blobs[id := content];
      nextId := nextId + 1;
      var rec := FileRecord(parentPath, fileName, id);
      match Save(records, rec)
      case Success(rs) =>
        SaveFileKeepsInvariants(records, blobs, id, rec);
        records := rs;
        reply := Uploaded(id);
      case Failure(e) =>
        reply := Fail(500, "File stored but metadata failed: " + SaveErrorMessage(e));
    }

    /**
     * POST /create-folder (content.js lines 142-174). `rawPath` is the body's
     * `path` ("" when absent).
     */
    method CreateFolder(rawPath: string) returns (reply: Reply)
      requires Valid()
      modifies this`records
      ensures Valid()
      ensures old(BlobsLive()) ==> BlobsLive()
      ensures rawPath == "" ==> reply == Fail(400, "Path required") && records == old(records)
      ensures rawPath != "" ==>
                var cleanPath := Clean(rawPath);
                var (parent, name) := SplitPopJoin(cleanPath);
                (name == "" ==> reply == Fail(400, "Invalid folder name") && records == old(records)) &&
                (name != "" ==>
                  match Save(old(records), FolderRecord(parent, name, cleanPath))
                  case Success(rs) => records == rs && reply == Done("Folder created")
                  case Failure(DuplicateKey) =>
                    records == old(records) && reply == Fail(400, "Folder already exists")
                  case Failure(ValidationFailed) =>
                    records == old(records) && reply == Fail(500, SaveErrorMessage(ValidationFailed)))
    {
      if rawPath == "" {
        return Fail(400, "Path required");
      }
      var cleanPath := Clean(rawPath);
      var (parent, name) := SplitPopJoin(cleanPath);
      if name == "" {
        return Fail(400, "Invalid folder name");
      }
      match Save(records, FolderRecord(parent, name, cleanPath))
      case Success(rs) =>
        SaveFolderKeepsInvariants(records, blobs, nextId, FolderRecord(parent, name, cleanPath));
        records := rs;
        reply := Done("Folder created");
      case Failure(e) =>
        if e == DuplicateKey {
          reply := Fail(400, "Folder already exists");
        } else {
          reply := Fail(500, SaveErrorMessage(e));
        }
    }

    /**
     * DELETE /delete (content.js lines 177-234). `rawPath` is the body's
     * `path` ("" when absent); `blobDeleteFails` says whether the bucket's
     * delete throws, which the route ignores before removing the record.
     */
    method Delete(rawPath: string, blobDeleteFails: bool) returns (reply: Reply)
      requires Valid()
      modifies this`records, this`blobs
      ensures Valid()
      ensures old(BlobsLive()) ==> BlobsLive()
      ensures rawPath == "" ==>
                reply == Fail(400, "Path required") && records == old(records) && blobs == old(blobs)
      ensures rawPath != "" && Resolve(old(records), rawPath).None? ==>
                reply == Fail(404, "Not found") && records == old(records) && blobs == old(blobs)
      ensures rawPath != "" && Resolve(old(records), rawPath).Some? ==>
                var k := Resolve(old(records), rawPath).value;
                var rec := old(records)[k];
                var hasBlob := rec.kind == File && rec.fileId.Some?;
                if hasBlob && !bucketReady then
                  reply == Fail(500, "Storage not initialized") &&
                  records == old(records) && blobs == old(blobs)
                else
                  reply == Done("Deleted successfully") &&
                  records == RemoveAt(old(records), k) &&
                  blobs == (if hasBlob && !blobDeleteFails then old(blobs) - {rec.fileId.value} else old(blobs)) &&
                  (hasBlob && blobDeleteFails && rec.fileId.value in old(blobs) && old(BlobsLive()) ==>
                    Orphan(rec.fileId.value))
    {
      if rawPath == "" {
        return Fail(400, "Path required");
      }
      var (targetParent, targetName) := Target(rawPath);
      var hit := Lookup(records, targetParent, targetName);
      if hit.None? {
        return Fail(404, "Not found");
      }
      reply := RemoveFound(hit.value, blobDeleteFails);
    }

    /**
     * The part of delete after the lookup (content.js lines 209-229): a
     * file's blob is deleted first, its failure ignored, then the record.
     */
    method RemoveFound(k: nat, blobDeleteFails: bool) returns (reply: Reply)
      requires Valid() && k < |records|
      modifies this`records, this`blobs
      ensures Valid()
      ensures old(BlobsLive()) ==> BlobsLive()
      ensures var rec := old(records)[k];
              var hasBlob := rec.kind == File && rec.fileId.Some?;
              if hasBlob && !bucketReady then
                reply == Fail(500, "Storage not initialized") &&
                records == old(records) && blobs == old(blobs)
              else
                reply == Done("Deleted successfully") &&
                records == RemoveAt(old(records), k) &&
                blobs == (if hasBlob && !blobDeleteFails then old(blobs) - {rec.fileId.value} else old(blobs)) &&
                (hasBlob && blobDeleteFails && rec.fileId.value in old(blobs) && old(BlobsLive()) ==>
                  Orphan(rec.fileId.value))
    {
      var rec := records[k];
      var hasBlob := rec.kind == File && rec.fileId.Some?;
      if hasBlob && !bucketReady {
        return Fail(500, "Storage not initialized");
      }
      RemoveKeepsInvariants(records, blobs, nextId, k, hasBlob && !blobDeleteFails);
      if hasBlob && BlobsLive() {
        RemovedBlobUnheld(records, blobs, k);
      }
      if hasBlob && !blobDeleteFails {
        // deleting an id that is not stored changes nothing
        blobs := blobs - {rec.fileId.value};
      }
      records := RemoveAt(records, k);
      reply := Done("Deleted successfully");
    }

    /**
     * GET /stream/<path> (content.js lines 237-286): the stored bytes of the
     * resolved record's blob. Neither store changes.
     */
    method Stream(rawPath: string) returns (reply: Reply)
      ensures var pathStr := RequestPath(rawPath);
              var hit := Resolve(records, rawPath);
              if hit.None? || records[hit.value].fileId.None? then
                reply == Fail(404, "File not found")
              else if !bucketReady then
                reply == Fail(500, "GridFS not initialized")
              else if records[hit.value].fileId.value !in blobs then
                reply == Fail(404, "File not found in storage")
              else
                reply.Streamed? && reply.body == blobs[records[hit.value].fileId.value] &&
                reply.disposition == "inline" &&
                (reply.contentType == Some("application/pdf") <==> IsPdfPath(pathStr)) &&
                (reply.contentType.None? <==> !IsPdfPath(pathStr))
      ensures Valid() && Resolve(records, rawPath).Some? &&
              records[Resolve(records, rawPath).value].kind == Folder ==>
                reply == Fail(404, "File not found")
    {
      var pathStr := RequestPath(rawPath);
      var (targetParent, targetName) := Target(rawPath);
      var hit := Lookup(records, targetParent, targetName);
      if hit.None? || records[hit.value].fileId.None? {
        return Fail(404, "File not found");
      }
      if !bucketReady {
        return Fail(500, "GridFS not initialized");
      }
      var id := records[hit.value].fileId.value;
      if id !in blobs {
        return Fail(404, "File not found in storage");
      }
      var contentType := if IsPdfPath(pathStr) then Some("application/pdf") else None;
      reply := Streamed(blobs[id], contentType, "inline");
    }
  }

  // ---------------------------------------------------------------------------
  // What a client can do with the paths the handlers store
  // ---------------------------------------------------------------------------

  /** A record saved into a collection is found again by its own (parent, name). */
  lemma {:induction false} SavedRecordFound(records: seq<Record>, rec: Record)
    requires Save(records, rec).Success?
    ensures Find(records + [rec], rec.parentPath, rec.name) == Some(|records|)
  {
    var rs := records + [rec];
    assert Matches(rs[|records|], rec.parentPath, rec.name);
    assert forall j :: 0 <= j < |records| ==> rs[j] == records[j];
  }

  /** A rooted prefix stays in front of anything appended to it. */
  lemma {:induction false} RootedPrefix(parent: string, rest: string)
    requires StartsWith(parent, Root)
    ensures StartsWith(parent + rest, Root)
  {
    assert (parent + rest)[..4] == parent[..4];
  }

  /**
   * The request path built from a stored file path splits back into the
   * parent and the name the record was saved under.
   */
  lemma {:induction false} StoredPathTarget(parent: string, name: string)
    requires StartsWith(parent, Root) && '/' !in name
    requires parent != Root || !StartsWith(name, Root)
    ensures Target(StoredFilePath(parent, name)) == (parent, name)
  {
    if parent == Root {
      assert RequestPath(name) == Root + "/" + name;
      SplitJoin(Root, name);
    } else {
      RootedPrefix(parent, "/" + name);
      assert parent + "/" + name == parent + ("/" + name);
      SplitJoin(parent, name);
    }
  }

  /**
   * An uploaded file with a slash-free name can be streamed and deleted by
   * the path stored for it, unless it sits at the root with a name that
   * itself starts with "ROOT" (see RootNamedFileUnreachable).
   */
  lemma {:induction false} UploadedFileResolves(records: seq<Record>, raw: string, name: string, id: BlobId)
    requires '/' !in name
    requires UploadParent(raw) != Root || !StartsWith(name, Root)
    requires Save(records, FileRecord(UploadParent(raw), name, id)).Success?
    ensures var rec := FileRecord(UploadParent(raw), name, id);
            Target(rec.path) == (rec.parentPath, name) &&
            Resolve(records + [rec], rec.path) == Some(|records|)
  {
    var rec := FileRecord(UploadParent(raw), name, id);
    StoredPathTarget(UploadParent(raw), name);
    SavedRecordFound(records, rec);
  }

  /**
   * A file uploaded to the root under a name starting with "ROOT" is stored
   * with that bare name as its path; the request-path test then adds no
   * "ROOT/", the split finds no slash, and the lookup with parent "" finds
   * nothing, although the record is in the collection.
   */
  lemma {:induction false} RootNamedFileUnreachable(records: seq<Record>, name: string, id: BlobId)
    requires '/' !in name && StartsWith(name, Root)
    requires forall i :: 0 <= i < |records| ==> HasRequired(records[i])
    requires Save(records, FileRecord(Root, name, id)).Success?
    ensures var rec := FileRecord(Root, name, id);
            rec.path == name && rec in records + [rec] &&
            Target(rec.path) == ("", name) &&
            Resolve(records + [rec], rec.path).None?
  {
    var rec := FileRecord(Root, name, id);
    var rs := records + [rec];
    assert LastSlash(name) == -1;
    forall j | 0 <= j < |rs| ensures !Matches(rs[j], "", name) {
      assert HasRequired(rs[j]);
    }
  }

  /** The case above for a file named "ROOTnotes.pdf" in an empty collection. */
  lemma {:induction false} RootNamedFileExample()
    ensures var rec := FileRecord(Root, "ROOTnotes.pdf", 0);
            Save([], rec) == Success([rec]) && Resolve([rec], "ROOTnotes.pdf").None?
  {
    var name := "ROOTnotes.pdf";
    assert name[..4] == Root;
    var rec := FileRecord(Root, name, 0);
    assert HasRequired(rec) && [] + [rec] == [rec];
    RootNamedFileUnreachable([], name, 0);
  }

  /** A created folder is found by the path stored for it. */
  lemma {:induction false} CreatedFolderResolves(records: seq<Record>, raw: string)
    ensures var c := Clean(raw);
            var (parent, name) := SplitPopJoin(c);
            Save(records, FolderRecord(parent, name, c)).Success? ==>
              Target(c) == (parent, name) &&
              Resolve(records + [FolderRecord(parent, name, c)], c) == Some(|records|)
  {
    var c := Clean(raw);
    SplitPopJoinIsLastSlash(c);
    var (parent, name) := SplitPopJoin(c);
    if Save(records, FolderRecord(parent, name, c)).Success? {
      SavedRecordFound(records, FolderRecord(parent, name, c));
    }
  }

  /** A parent not starting with "ROOT" keeps a path built on it unrooted. */
  lemma {:induction false} UnrootedPrefix(q: string, name: string)
    requires !StartsWith(q, Root)
    ensures !StartsWith(q + "/" + name, Root)
  {
    var raw := q + "/" + name;
    if |q| >= 4 {
      assert raw[..4] == q[..4];
    } else if |raw| >= 4 {
      assert raw[|q|] == '/' && Root[|q|] != '/';
    }
  }

  /**
   * A legacy record, stored under a parent without the "ROOT" prefix, is
   * found by its own parent + "/" + name through the fallback as long as no
   * record sits at the prefixed pair.
   */
  lemma {:induction false} LegacyRecordResolves(records: seq<Record>, k: nat)
    requires k < |records| && '/' !in records[k].name
    requires !StartsWith(records[k].parentPath, Root)
    requires forall j :: 0 <= j < |records| ==>
               !Matches(records[j], RootSlash + records[k].parentPath, records[k].name)
    ensures var raw := records[k].parentPath + "/" + records[k].name;
            Target(raw) == (RootSlash + records[k].parentPath, records[k].name) &&
            Resolve(records, raw) == Find(records, records[k].parentPath, records[k].name) &&
            Resolve(records, raw).Some?
  {
    var q, name := records[k].parentPath, records[k].name;
    var raw := q + "/" + name;
    var parent := RootSlash + q;
    UnrootedPrefix(q, name);
    assert RequestPath(raw) == RootSlash + raw;
    assert RootSlash + raw == parent + "/" + name;
    SplitJoin(parent, name);
    assert Target(raw) == (parent, name);
    assert parent[..|RootSlash|] == RootSlash;
    assert LegacyParent(parent) == q;
    assert Find(records, parent, name).None?;
    assert Lookup(records, parent, name) == Find(records, q, name);
    assert Matches(records[k], q, name);
  }

  /**
   * Deleting the record a path resolves to leaves no record with its pair;
   * the same path then resolves to nothing, except that a record found by
   * its exact pair can leave a legacy record at the unprefixed parent to be
   * found next.
   */
  lemma {:induction false} DeletedRecordGone(records: seq<Record>, raw: string, k: nat)
    requires Unique(records) && Resolve(records, raw) == Some(k)
    ensures var rs := RemoveAt(records, k);
            (forall j :: 0 <= j < |rs| ==> !Matches(rs[j], records[k].parentPath, records[k].name)) &&
            (records[k].parentPath != Target(raw).0 ==> Resolve(rs, raw).None?) &&
            (records[k].parentPath == Target(raw).0 ==>
              (Resolve(rs, raw).Some? <==>
                StartsWith(Target(raw).0, RootSlash) &&
                exists j :: 0 <= j < |records| && Matches(records[j], LegacyParent(Target(raw).0), Target(raw).1)))
  {
    var (parent, name) := Target(raw);
    assert Resolve(records, raw) == Lookup(records, parent, name);
    assert Resolve(RemoveAt(records, k), raw) == Lookup(RemoveAt(records, k), parent, name);
    LookupAfterRemove(records, parent, name, k);
  }

  /** DeletedRecordGone for the pair the path is cut into. */
  lemma {:induction false} LookupAfterRemove(records: seq<Record>, parent: string, name: string, k: nat)
    requires Unique(records) && Lookup(records, parent, name) == Some(k)
    ensures var rs := RemoveAt(records, k);
            (forall j :: 0 <= j < |rs| ==> !Matches(rs[j], records[k].parentPath, records[k].name)) &&
            (records[k].parentPath != parent ==> Lookup(rs, parent, name).None?) &&
            (records[k].parentPath == parent ==>
              (Lookup(rs, parent, name).Some? <==>
                StartsWith(parent, RootSlash) &&
                exists j :: 0 <= j < |records| && Matches(records[j], LegacyParent(parent), name)))
  {
    var rs := RemoveAt(records, k);
    forall j | 0 <= j < |rs| ensures !Matches(rs[j], records[k].parentPath, records[k].name) {
      if j < k {
        assert rs[j] == records[j];
      } else {
        assert rs[j] == records[j + 1];
      }
    }
    assert forall j :: 0 <= j < |rs| ==> rs[j] == records[if j < k then j else j + 1];
    if StartsWith(parent, RootSlash) {
      var legacy := LegacyParent(parent);
      if records[k].parentPath == parent {
        // the legacy pair differs from the deleted one, so removal keeps its matches
        assert legacy != parent;
        if exists j :: 0 <= j < |records| && Matches(records[j], legacy, name) {
          var j :| 0 <= j < |records| && Matches(records[j], legacy, name);
          assert j != k;
          assert Matches(rs[if j < k then j else j - 1], legacy, name);
        }
      }
    }
  }

  /**
   * Deleting a folder does not cascade: every record filed directly under
   * the folder's address is still in the collection afterwards.
   */
  lemma {:induction false} FolderDeleteKeepsChildren(records: seq<Record>, k: nat)
    requires k < |records| && records[k].kind == Folder
    ensures var a := FolderAddress(records[k].parentPath, records[k].name);
            forall j :: 0 <= j < |records| && records[j].parentPath == a ==>
              records[j] in RemoveAt(records, k)
  {
    var a := FolderAddress(records[k].parentPath, records[k].name);
    var rs := RemoveAt(records, k);
    forall j | 0 <= j < |records| && records[j].parentPath == a ensures records[j] in rs {
      assert j != k;
      if j < k {
        assert rs[j] == records[j];
      } else {
        assert rs[j - 1] == records[j];
      }
    }
  }

  /**
   * Upload then stream by the stored path: when the upload saves its record,
   * streaming that record's path returns exactly the uploaded bytes, inline.
   */
  method UploadThenStream(lib: Library, file: UploadedFile, rawPath: string) returns (up: Reply, down: Reply)
    requires lib.Valid() && lib.bucketReady
    requires '/' !in file.originalName
    requires UploadParent(rawPath) != Root || !StartsWith(file.originalName, Root)
    modifies lib
    ensures up.Uploaded? ==> down.Streamed? && down.body == file.content && down.disposition == "inline"
    ensures !up.Uploaded? ==> up.Fail? && up.status == 500
  {
    var parent := UploadParent(rawPath);
    var rec := FileRecord(parent, file.originalName, lib.nextId);
    if Save(lib.records, rec).Success? {
      UploadedFileResolves(lib.records, rawPath, file.originalName, lib.nextId);
    }
    up := lib.Upload(Some(file), rawPath, false);
    down := lib.Stream(rec.path);
  }
}
