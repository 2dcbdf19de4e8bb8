/**
 * `buildTree` of GET /structure (server/routes/content.js lines 40-65): the
 * nested folder/file structure rebuilt from a snapshot of the flat metadata
 * collection by filtering on `parentPath` and recursing into each folder.
 */
module TreeBuilder {
  import opened Wrappers
  import opened Paths
  import opened ContentModel

  /**
   * One entry of the JSON structure: a folder always carries its `children`
   * array (possibly empty) and no `fileId`; a file carries its stored
   * `fileId` and no `children`.
   */
  datatype Node =
    | FolderNode(name: string, path: string, children: seq<Node>)
    | FileNode(name: string, path: string, fileId: Option<BlobId>)

  /** `items.filter(item => item.parentPath === addr)`. */
  function Children(items: seq<Record>, addr: string): (kids: seq<Record>)
    ensures |kids| <= |items|
    ensures forall r :: r in kids <==> r in items && r.parentPath == addr
  {
    if items == [] then []
    else (if items[0].parentPath == addr then [items[0]] else []) + Children(items[1..], addr)
  }

  /** The longest parentPath in the snapshot. */
  function MaxParentLength(items: seq<Record>): (m: nat)
    ensures forall r :: r in items ==> |r.parentPath| <= m
  {
    if items == [] then 0
    else
      var m := MaxParentLength(items[1..]);
      if |items[0].parentPath| > m then |items[0].parentPath| else m
  }

  /**
   * How many characters an address can still grow before no record can have
   * it as parent. A folder's address is longer than its parent's, so this
   * bounds the depth of the recursion.
   */
  function Height(items: seq<Record>, addr: string): nat
  {
    var m := MaxParentLength(items);
    if |addr| <= m then m + 1 - |addr| else 0
  }

  /** The address of a folder's children: `${parentPath}/${item.name}`. */
  function FolderAddress(parent: string, name: string): (a: string)
    ensures |a| > |parent|
  {
    parent + "/" + name
  }

  /** The nodes under address `addr`, in collection order. */
  function BuildTree(items: seq<Record>, addr: string): (nodes: seq<Node>)
    ensures |nodes| == |Children(items, addr)|
    decreases Height(items, addr), 2
  {
    Forest(items, addr, Children(items, addr))
  }

  /** The `.map` over the filtered records. */
  function Forest(items: seq<Record>, addr: string, kids: seq<Record>): (nodes: seq<Node>)
    requires forall r :: r in kids ==> r in items && r.parentPath == addr
    ensures |nodes| == |kids|
    decreases Height(items, addr), 1, |kids|
  {
    if kids == [] then []
    else [NodeOf(items, addr, kids[0])] + Forest(items, addr, kids[1..])
  }

  /** The node one record becomes. */
  function NodeOf(items: seq<Record>, addr: string, r: Record): Node
    requires r in items && r.parentPath == addr
    decreases Height(items, addr), 0, 0
  {
    if r.kind == Folder then
      var a := FolderAddress(addr, r.name);
      FolderNode(r.name, a, BuildTree(items, a))
    else
      FileNode(r.name, r.path, r.fileId)
  }

  /** The i-th node of a forest is the node of the i-th record given to it. */
  lemma {:induction false} ForestAt(items: seq<Record>, addr: string, kids: seq<Record>, i: nat)
    requires forall r :: r in kids ==> r in items && r.parentPath == addr
    requires i < |kids|
    ensures Forest(items, addr, kids)[i] == NodeOf(items, addr, kids[i])
    decreases |kids|
  {
    if i > 0 {
      ForestAt(items, addr, kids[1..], i - 1);
    }
  }

  /**
   * The i-th node under `addr` describes the i-th record whose parentPath is
   * `addr`: a folder gets the address parent + "/" + name and the nodes under
   * that address as children, a file its stored path and blob id.
   */
  lemma {:induction false} BuildTreeAt(items: seq<Record>, addr: string, i: nat)
    requires i < |Children(items, addr)|
    ensures var r, n := Children(items, addr)[i], BuildTree(items, addr)[i];
            r.parentPath == addr && r in items && n.name == r.name &&
            (r.kind == Folder ==>
              n.FolderNode? && n.path == addr + "/" + r.name &&
              n.children == BuildTree(items, addr + "/" + r.name)) &&
            (r.kind == File ==>
              n.FileNode? && n.path == r.path && n.fileId == r.fileId)
  {
    var kids := Children(items, addr);
    assert kids[i] in kids;
    ForestAt(items, addr, kids, i);
  }

  /** Filtering distributes over concatenation. */
  lemma {:induction false} ChildrenConcat(a: seq<Record>, b: seq<Record>, addr: string)
    ensures Children(a + b, addr) == Children(a, addr) + Children(b, addr)
  {
    if a == [] {
      assert a + b == b;
    } else {
      assert (a + b)[1..] == a[1..] + b;
      ChildrenConcat(a[1..], b, addr);
    }
  }

  /** A record appended to the collection comes last among its siblings. */
  lemma {:induction false} ChildrenAppend(items: seq<Record>, r: Record, addr: string)
    ensures Children(items + [r], addr) ==
            Children(items, addr) + (if r.parentPath == addr then [r] else [])
  {
    ChildrenConcat(items, [r], addr);
  }

  /** Removing the record at position k removes it, and only it, from its siblings. */
  lemma {:induction false} ChildrenRemoveAt(items: seq<Record>, k: nat, addr: string)
    requires k < |items|
    ensures Children(items, addr) ==
            Children(items[..k], addr)
            + (if items[k].parentPath == addr then [items[k]] else [])
            + Children(items[k + 1..], addr)
    ensures Children(RemoveAt(items, k), addr) ==
            Children(items[..k], addr) + Children(items[k + 1..], addr)
  {
    assert items == items[..k] + ([items[k]] + items[k + 1..]);
    ChildrenConcat(items[..k], [items[k]] + items[k + 1..], addr);
    ChildrenConcat([items[k]], items[k + 1..], addr);
    ChildrenConcat(items[..k], items[k + 1..], addr);
  }

  predicate DistinctNames(kids: seq<Record>) {
    forall i, j :: 0 <= i < j < |kids| ==> kids[i].name != kids[j].name
  }

  /** The tail of a uniquely indexed collection is uniquely indexed. */
  lemma {:induction false} UniqueTail(items: seq<Record>)
    requires Unique(items) && items != []
    ensures Unique(items[1..])
  {
    var rest := items[1..];
    forall i, j | 0 <= i < j < |rest| ensures !Matches(rest[j], rest[i].parentPath, rest[i].name) {
      assert rest[i] == items[i + 1] && rest[j] == items[j + 1];
    }
  }

  /** Putting a record with a fresh name in front of distinctly named siblings keeps them distinct. */
  lemma {:induction false} DistinctNamesCons(r: Record, tail: seq<Record>)
    requires DistinctNames(tail)
    requires forall j :: 0 <= j < |tail| ==> tail[j].name != r.name
    ensures DistinctNames([r] + tail)
  {
    var kids := [r] + tail;
    forall i, j | 0 <= i < j < |kids| ensures kids[i].name != kids[j].name {
      assert kids[j] == tail[j - 1];
      if i > 0 {
        assert kids[i] == tail[i - 1];
      }
    }
  }

  /** Under the unique index no two siblings share a name. */
  lemma {:induction false} ChildrenNamesDistinct(items: seq<Record>, addr: string)
    requires Unique(items)
    ensures DistinctNames(Children(items, addr))
    decreases |items|
  {
    if items != [] {
      var rest := items[1..];
      UniqueTail(items);
      ChildrenNamesDistinct(rest, addr);
      var tail := Children(rest, addr);
      if items[0].parentPath == addr {
        forall j | 0 <= j < |tail| ensures tail[j].name != items[0].name {
          assert tail[j] in rest;
          var m :| 0 <= m < |rest| && rest[m] == tail[j];
          assert items[m + 1] == tail[j];
        }
        DistinctNamesCons(items[0], tail);
        assert Children(items, addr) == [items[0]] + tail;
      } else {
        assert Children(items, addr) == tail;
      }
    }
  }

  // ---------------------------------------------------------------------------
  // Which records the structure can show
  // ---------------------------------------------------------------------------

  /** Every node of a forest at every depth, each folder before its children. */
  function AllNodes(forest: seq<Node>): (all: seq<Node>)
    ensures forall n :: n in forest ==> n in all
    decreases forest
  {
    if forest == [] then [] else NodeAndBelow(forest[0]) + AllNodes(forest[1..])
  }

  /** A node followed by every node below it. */
  function NodeAndBelow(n: Node): (all: seq<Node>)
    ensures |all| > 0 && all[0] == n
    decreases n
  {
    [n] + (if n.FolderNode? then AllNodes(n.children) else [])
  }

  /**
   * Address p hangs below address `addr` through a chain of folder records:
   * p is `addr` itself, or the address of a folder record whose own parent
   * hangs below `addr`.
   */
  ghost predicate Reaches(items: seq<Record>, addr: string, p: string)
    decreases |p|
  {
    p == addr ||
    exists i :: 0 <= i < |items| && items[i].kind == Folder &&
      FolderAddress(items[i].parentPath, items[i].name) == p &&
      Reaches(items, addr, items[i].parentPath)
  }

  /** Node n is the node of some record whose parent hangs below `addr`. */
  ghost predicate FromReachable(items: seq<Record>, addr: string, n: Node) {
    exists i :: 0 <= i < |items| && Reaches(items, addr, items[i].parentPath) &&
      n == NodeOf(items, items[i].parentPath, items[i])
  }

  /** The induction behind TreeShowsReachableOnly, over Forest and BuildTree together. */
  lemma {:induction false} ForestFromReachable(items: seq<Record>, addr: string, a: string, kids: seq<Record>)
    requires Reaches(items, addr, a)
    requires forall r :: r in kids ==> r in items && r.parentPath == a
    ensures forall n :: n in AllNodes(Forest(items, a, kids)) ==> FromReachable(items, addr, n)
    decreases Height(items, a), |kids|
  {
    if kids != [] {
      var r := kids[0];
      var forest := Forest(items, a, kids);
      var x := NodeOf(items, a, r);
      assert forest == [x] + Forest(items, a, kids[1..]);
      ForestFromReachable(items, addr, a, kids[1..]);
      var i :| 0 <= i < |items| && items[i] == r;
      assert FromReachable(items, addr, x);
      assert AllNodes(forest) == NodeAndBelow(x) + AllNodes(Forest(items, a, kids[1..]));
      if r.kind == Folder {
        var a' := FolderAddress(a, r.name);
        assert Reaches(items, addr, a');
        ForestFromReachable(items, addr, a', Children(items, a'));
        assert NodeAndBelow(x) == [x] + AllNodes(BuildTree(items, a'));
      }
    }
  }

  /**
   * Every node of the structure, at every depth, is the node of a record
   * whose parentPath is reached from the starting address through existing
   * folder records: a record whose chain of parents does not reach it never
   * appears.
   */
  lemma {:induction false} TreeShowsReachableOnly(items: seq<Record>, addr: string)
    ensures forall n :: n in AllNodes(BuildTree(items, addr)) ==> FromReachable(items, addr, n)
  {
    ForestFromReachable(items, addr, addr, Children(items, addr));
  }

  /** A reached address extends the starting address. */
  lemma {:induction false} ReachesExtends(items: seq<Record>, addr: string, p: string)
    requires Reaches(items, addr, p)
    ensures StartsWith(p, addr)
    decreases |p|
  {
    if p != addr {
      var i :| 0 <= i < |items| && items[i].kind == Folder &&
        FolderAddress(items[i].parentPath, items[i].name) == p &&
        Reaches(items, addr, items[i].parentPath);
      var q := items[i].parentPath;
      ReachesExtends(items, addr, q);
      assert p[..|q|] == q;
      assert p[..|addr|] == q[..|addr|];
    }
  }

  /** Node n is the node of some record whose parentPath starts with `addr`. */
  ghost predicate FromUnder(items: seq<Record>, addr: string, n: Node) {
    exists i :: 0 <= i < |items| && StartsWith(items[i].parentPath, addr) &&
      n == NodeOf(items, items[i].parentPath, items[i])
  }

  /**
   * Legacy records, whose parentPath lacks the ROOT prefix, never appear in
   * the structure built from "ROOT".
   */
  lemma {:induction false} LegacyRecordsHidden(items: seq<Record>)
    ensures forall n :: n in AllNodes(BuildTree(items, Root)) ==> FromUnder(items, Root, n)
  {
    TreeShowsReachableOnly(items, Root);
    forall n | n in AllNodes(BuildTree(items, Root)) ensures FromUnder(items, Root, n) {
      assert FromReachable(items, Root, n);
      var i :| 0 <= i < |items| && Reaches(items, Root, items[i].parentPath) &&
        n == NodeOf(items, items[i].parentPath, items[i]);
      ReachesExtends(items, Root, items[i].parentPath);
    }
  }
}
