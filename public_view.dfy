/**
 * The folder navigation of the public page (client/src/pages/PublicView.jsx):
 * the position is the list of folder nodes the visitor has entered, and the
 * items on screen are found by walking the structure GET /structure returned
 * along that list, one folder name at a time.
 */
module PublicView {
  import opened Wrappers
  import opened ContentModel
  import opened TreeBuilder

  /** `currentPosition`: the folder nodes entered, outermost first. */
  type Position = seq<Node>

  /** `items.find(i => i.name === name && i.type === 'folder')`. */
  function FirstFolder(items: seq<Node>, name: string): (r: Option<nat>)
    ensures r.Some? ==> r.value < |items| && items[r.value].FolderNode? && items[r.value].name == name
    ensures r.Some? ==> forall j :: 0 <= j < r.value ==> !(items[j].FolderNode? && items[j].name == name)
    ensures r.None? <==> forall j :: 0 <= j < |items| ==> !(items[j].FolderNode? && items[j].name == name)
  {
    if items == [] then None
    else if items[0].FolderNode? && items[0].name == name then Some(0)
    else match FirstFolder(items[1..], name)
      case None => None
      case Some(k) => Some(k + 1)
  }

  /**
   * One iteration of the walk: the children of the first folder carrying the
   * entry's name, or [] when there is none. Only the entry's name is looked at.
   */
  function Step(items: seq<Node>, entry: Node): seq<Node> {
    match FirstFolder(items, entry.name)
    case None => []
    case Some(k) => items[k].children
  }

  /**
   * What `getCurrentItems` shows (PublicView.jsx lines 29-40): the walk from
   * `items` along `pos`, giving up with [] at the first step that finds no
   * folder.
   */
  function ItemsAt(items: seq<Node>, pos: Position): (r: seq<Node>)
    ensures pos == [] ==> r == items
    ensures items == [] ==> r == []
    decreases |pos|
  {
    if pos == [] then items
    else match FirstFolder(items, pos[0].name)
      case None => []
      case Some(k) => ItemsAt(items[k].children, pos[1..])
  }

  /** `getCurrentItems`: the loop that rebinds its cursor once per position entry. */
  method CurrentItems(structure: seq<Node>, pos: Position) returns (items: seq<Node>)
    ensures items == ItemsAt(structure, pos)
  {
    items := structure;
    for i := 0 to |pos|
      invariant ItemsAt(structure, pos) == ItemsAt(items, pos[i..])
    {
      assert pos[i..][1..] == pos[i + 1..];
      var found := FirstFolder(items, pos[i].name);
      if found.None? {
        return [];
      }
      items := items[found.value].children;
    }
    assert pos[|pos|..] == [];
  }

  /** `handleNavigate` (lines 42-44): the folder is appended to the position. */
  function Navigate(pos: Position, folder: Node): (r: Position)
    ensures |r| == |pos| + 1 && r[..|pos|] == pos && r[|pos|] == folder
  {
    pos + [folder]
  }

  /**
   * `handleBack` (lines 46-50): a copy of the position with its last entry
   * popped; popping an empty position leaves it empty.
   */
  method Back(pos: Position) returns (newPos: Position)
    ensures pos != [] ==> newPos + [pos[|pos| - 1]] == pos
    ensures pos == [] ==> newPos == []
  {
    newPos := pos;
    if |newPos| > 0 {
      newPos := newPos[..|newPos| - 1];
    }
  }

  /** Clicking breadcrumb `idx` (line 87): the first idx + 1 entries. */
  function Crumb(pos: Position, idx: nat): (r: Position)
    requires idx < |pos|
    ensures |r| == idx + 1 && forall j :: 0 <= j < |r| ==> r[j] == pos[j]
  {
    pos[..idx + 1]
  }

  /** The home icon (line 81): back to the top of the structure. */
  const Home: Position := []

  // ---------------------------------------------------------------------------
  // Properties of the walk
  // ---------------------------------------------------------------------------

  /** The home position shows the whole top level of the structure. */
  lemma {:induction false} HomeShowsTop(structure: seq<Node>)
    ensures ItemsAt(structure, Home) == structure
  {
  }

  /** Walking along two positions one after the other is walking along both joined. */
  lemma {:induction false} ItemsAtConcat(items: seq<Node>, p: Position, q: Position)
    ensures ItemsAt(items, p + q) == ItemsAt(ItemsAt(items, p), q)
    decreases |p|
  {
    if p == [] {
      assert p + q == q;
    } else {
      assert (p + q)[0] == p[0] && (p + q)[1..] == p[1..] + q;
      match FirstFolder(items, p[0].name)
      case None =>
      case Some(k) => ItemsAtConcat(items[k].children, p[1..], q);
    }
  }

  /** Navigating into a folder adds one step to the walk. */
  lemma {:induction false} ItemsAtNavigate(structure: seq<Node>, pos: Position, folder: Node)
    ensures ItemsAt(structure, Navigate(pos, folder)) == Step(ItemsAt(structure, pos), folder)
  {
    ItemsAtConcat(structure, pos, [folder]);
  }

  /**
   * Clicking a folder shown on screen shows its children, provided no
   * earlier folder on screen has the same name.
   */
  lemma {:induction false} NavigateShowsChildren(structure: seq<Node>, pos: Position, k: nat)
    requires k < |ItemsAt(structure, pos)|
    requires ItemsAt(structure, pos)[k].FolderNode?
    requires var items := ItemsAt(structure, pos);
             forall j :: 0 <= j < k ==> !(items[j].FolderNode? && items[j].name == items[k].name)
    ensures var items := ItemsAt(structure, pos);
            ItemsAt(structure, Navigate(pos, items[k])) == items[k].children
  {
    var items := ItemsAt(structure, pos);
    ItemsAtNavigate(structure, pos, items[k]);
  }

  /** A name that only files carry on screen leads nowhere: the walk gives []. */
  lemma {:induction false} FilesNeverEntered(structure: seq<Node>, pos: Position, entry: Node)
    requires var items := ItemsAt(structure, pos);
             forall j :: 0 <= j < |items| && items[j].name == entry.name ==> items[j].FileNode?
    ensures ItemsAt(structure, Navigate(pos, entry)) == []
  {
    ItemsAtNavigate(structure, pos, entry);
  }

  /** Once a step fails, every longer position shows nothing either. */
  lemma {:induction false} FailedStepEmpty(structure: seq<Node>, pos: Position, i: nat)
    requires i < |pos| && FirstFolder(ItemsAt(structure, pos[..i]), pos[i].name).None?
    ensures ItemsAt(structure, pos) == []
  {
    assert pos == pos[..i] + pos[i..];
    ItemsAtConcat(structure, pos[..i], pos[i..]);
  }

  /** Going back after entering a folder, by the breadcrumb of the last old entry, restores the position. */
  lemma {:induction false} CrumbUndoesNavigate(pos: Position, folder: Node)
    requires pos != []
    ensures Crumb(Navigate(pos, folder), |pos| - 1) == pos
  {
  }

  /** The breadcrumb of entry idx shows what was on screen when that folder was entered. */
  lemma {:induction false} CrumbShowsPrefix(structure: seq<Node>, pos: Position, idx: nat)
    requires idx < |pos|
    ensures ItemsAt(structure, pos) == ItemsAt(ItemsAt(structure, Crumb(pos, idx)), pos[idx + 1..])
  {
    assert pos == pos[..idx + 1] + pos[idx + 1..];
    ItemsAtConcat(structure, pos[..idx + 1], pos[idx + 1..]);
  }

  /** A folder whose name no earlier item carries is the one the lookup finds. */
  lemma {:induction false} FirstFolderAt(items: seq<Node>, i: nat)
    requires i < |items| && items[i].FolderNode?
    requires forall j :: 0 <= j < i ==> items[j].name != items[i].name
    ensures FirstFolder(items, items[i].name) == Some(i)
  {
  }

  /** The nodes the server builds under one address carry distinct names. */
  lemma {:induction false} BuiltNamesDistinct(records: seq<Record>, addr: string, i: nat)
    requires Unique(records) && i < |Children(records, addr)|
    ensures var nodes := BuildTree(records, addr);
            forall j :: 0 <= j < i ==> nodes[j].name != nodes[i].name
  {
    var kids := Children(records, addr);
    var nodes := BuildTree(records, addr);
    ChildrenNamesDistinct(records, addr);
    BuildTreeAt(records, addr, i);
    forall j | 0 <= j < i ensures nodes[j].name != nodes[i].name {
      BuildTreeAt(records, addr, j);
      assert kids[j].name != kids[i].name;
    }
  }

  /**
   * On the structure the server builds, clicking the i-th folder under an
   * address shows exactly the server's subtree of that folder: the unique
   * index keeps sibling names apart, so the name lookup finds that folder.
   */
  lemma {:induction false} StepIntoBuiltFolder(records: seq<Record>, addr: string, i: nat)
    requires Unique(records) && i < |Children(records, addr)|
    requires Children(records, addr)[i].kind == Folder
    ensures var nodes := BuildTree(records, addr);
            Step(nodes, nodes[i]) == BuildTree(records, addr + "/" + nodes[i].name)
  {
    var nodes := BuildTree(records, addr);
    BuildTreeAt(records, addr, i);
    BuiltNamesDistinct(records, addr, i);
    FirstFolderAt(nodes, i);
  }
}
