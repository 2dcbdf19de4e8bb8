/**
 * The Content record of the metadata collection (server/models/Content.js):
 * its fields, the schema default and required fields, the optional blob id,
 * and the unique index on (parentPath, name), together with the two
 * collection operations the routes rely on: findOne by that pair and save.
 */
module ContentModel {
  import opened Wrappers
  import opened Paths

  newtype byte = x: int | 0 <= x < 256

  /** A blob store id; ObjectIds are opaque here, so a natural number stands for one. */
  type BlobId = nat

  /** The `type` enum: only these two values exist. */
  datatype Kind = Folder | File

  /** One metadata record; `createdAt` and the record `_id` are not modelled. */
  datatype Record = Record(
    parentPath: string,
    name: string,
    kind: Kind,
    path: string,
    fileId: Option<BlobId>)

  /**
   * A new document: an absent parentPath takes the schema default "ROOT"; a
   * present one, even "", is kept as given.
   */
  function NewContent(parentPath: Option<string>, name: string, kind: Kind, path: string,
                      fileId: Option<BlobId>): (r: Record)
    ensures parentPath.None? ==> r.parentPath == Root
    ensures parentPath.Some? ==> r.parentPath == parentPath.value
    ensures r.name == name && r.kind == kind && r.path == path && r.fileId == fileId
  {
    Record(if parentPath.None? then Root else parentPath.value, name, kind, path, fileId)
  }

  /** A schema `required` string is present and not empty. */
  predicate HasRequired(r: Record) {
    r.parentPath != "" && r.name != "" && r.path != ""
  }

  predicate Matches(r: Record, parent: string, name: string) {
    r.parentPath == parent && r.name == name
  }

  /** The unique compound index: no two records share (parentPath, name). */
  predicate Unique(records: seq<Record>) {
    forall i, j | 0 <= i < j < |records| ::
      !Matches(records[j], records[i].parentPath, records[i].name)
  }

  /** `findOne({ parentPath, name })`: the position of the first matching record. */
  function Find(records: seq<Record>, parent: string, name: string): (r: Option<nat>)
    ensures r.Some? ==> r.value < |records| && Matches(records[r.value], parent, name)
    ensures r.Some? ==> forall j :: 0 <= j < r.value ==> !Matches(records[j], parent, name)
    ensures r.None? <==> forall j :: 0 <= j < |records| ==> !Matches(records[j], parent, name)
  {
    if records == [] then None
    else if Matches(records[0], parent, name) then Some(0)
    else match Find(records[1..], parent, name)
      case None => None
      case Some(k) => Some(k + 1)
  }

  /** Under the unique index a record is found by its own pair, and only there. */
  lemma {:induction false} FindUnique(records: seq<Record>, k: nat)
    requires Unique(records) && k < |records|
    ensures Find(records, records[k].parentPath, records[k].name) == Some(k)
  {
    assert Matches(records[k], records[k].parentPath, records[k].name);
  }

  /** Why `save()` rejects a document. */
  datatype SaveError = ValidationFailed | DuplicateKey

  /**
   * `document.save()`: validation of the required fields runs first, then the
   * unique index refuses a second (parentPath, name); otherwise the record is
   * appended to the collection.
   */
  function Save(records: seq<Record>, r: Record): (res: Result<seq<Record>, SaveError>)
    ensures res == Failure(ValidationFailed) <==> !HasRequired(r)
    ensures res == Failure(DuplicateKey) <==>
              HasRequired(r) && exists j :: 0 <= j < |records| && Matches(records[j], r.parentPath, r.name)
    ensures res.Success? ==> res.value == records + [r]
    ensures res.Success? && Unique(records) ==> Unique(res.value)
  {
    if !HasRequired(r) then Failure(ValidationFailed)
    else if Find(records, r.parentPath, r.name).Some? then Failure(DuplicateKey)
    else Success(records + [r])
  }

  /** `deleteOne({ _id })`: exactly the record at position k leaves the collection. */
  function RemoveAt(records: seq<Record>, k: nat): (res: seq<Record>)
    requires k < |records|
    ensures |res| == |records| - 1
    ensures forall j :: 0 <= j < k ==> res[j] == records[j]
    ensures forall j :: k <= j < |res| ==> res[j] == records[j + 1]
    ensures Unique(records) ==> Unique(res)
  {
    records[..k] + records[k + 1..]
  }

  /** Saving the same pair twice: the second save is refused by the index. */
  lemma {:induction false} SaveTwiceRejected(records: seq<Record>, r: Record)
    requires Save(records, r).Success?
    ensures Save(Save(records, r).value, r) == Failure(DuplicateKey)
  {
    var rs := records + [r];
    assert Matches(rs[|records|], r.parentPath, r.name);
  }
}
