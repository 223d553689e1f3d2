/**
  The remote side of the Drive mirror: the paginated listing of one folder's
  children and the depth-first flattening of the folder tree into items that
  carry their path relative to the mirrored root.
 */
module DriveTree {
  import opened Wrappers

  /** The MIME type Drive gives to folders; every other type is a file. */
  const FolderMime: string := "application/vnd.google-apps.folder"

  /** A relative path, as the sequence of the names it joins. */
  type Path = seq<string>

  /** A child descriptor as the listing call returns it: `id`, `name`, `mimeType`. */
  datatype Entry = Entry(id: string, name: string, mimeType: string)

  predicate IsFolder(e: Entry) {
    e.mimeType == FolderMime
  }

  // ---------------------------------------------------------------------------
  // Paginated listing
  // ---------------------------------------------------------------------------

  /** One response of the listing call; `files` and `nextPageToken` may be absent. */
  datatype Page = Page(files: Option<seq<Entry>>, nextPageToken: Option<string>)

  /** `response.get('files', [])` */
  function PageFiles(p: Page): seq<Entry> {
    p.files.GetOr([])
  }

  /** The loop stops after a page whose token is absent or empty (both are falsy). */
  predicate IsLastPage(p: Page) {
    p.nextPageToken == None || p.nextPageToken == Some("")
  }

  /** The files of every page, in page order. */
  function ConcatFiles(pages: seq<Page>): seq<Entry> {
    if |pages| == 0 then [] else PageFiles(pages[0]) + ConcatFiles(pages[1..])
  }

  /** What a finished listing produced, and how many responses it consumed. */
  datatype Listing = Listing(items: seq<Entry>, pagesRead: nat)

  /**
    `_list_files_in_folder`. `pages` are the service's responses in call order
    (each request carries the previous response's token). The result is `None`
    when the responses run out before one without a next-page token arrives.
   */
  function ListFolder(pages: seq<Page>): (r: Option<Listing>)
    ensures r.Some? <==> exists i :: 0 <= i < |pages| && IsLastPage(pages[i])
    ensures r.Some? ==>
              && 1 <= r.value.pagesRead <= |pages|
              && IsLastPage(pages[r.value.pagesRead - 1])
              && (forall i :: 0 <= i < r.value.pagesRead - 1 ==> !IsLastPage(pages[i]))
              && r.value.items == ConcatFiles(pages[..r.value.pagesRead])
  {
    if |pages| == 0 then None
    else if IsLastPage(pages[0]) then
      assert pages[..1] == [pages[0]];
      Some(Listing(PageFiles(pages[0]), 1))
    else
      match ListFolder(pages[1..])
      case None => None
      case Some(rest) =>
        assert pages[..rest.pagesRead + 1][1..] == pages[1..][..rest.pagesRead];
        Some(Listing(PageFiles(pages[0]) + rest.items, rest.pagesRead + 1))
  }

  // ---------------------------------------------------------------------------
  // Recursive flattening
  // ---------------------------------------------------------------------------

  /**
    A node of the remote tree. For a folder, `children` is its complete listing
    in listing order; the children of a non-folder are never visited.
   */
  datatype Node = Node(entry: Entry, children: seq<Node>)

  /** An emitted item: the entry's fields plus its relative `path`. */
  datatype Item = Item(id: string, name: string, mimeType: string, path: Path)

  predicate IsFolderItem(x: Item) {
    x.mimeType == FolderMime
  }

  /**
    Where an entry lands when its ancestors' names are `anc`: a folder's path
    is `anc` followed by its own name, a file's path is `anc` alone.
   */
  function Placed(e: Entry, anc: Path): Item {
    Item(e.id, e.name, e.mimeType, if IsFolder(e) then anc + [e.name] else anc)
  }

  /** The number of nodes a traversal visits (it descends only into folders). */
  function CountAll(nodes: seq<Node>): nat
    decreases nodes
  {
    if |nodes| == 0 then 0 else CountNode(nodes[0]) + CountAll(nodes[1..])
  }

  function CountNode(n: Node): nat
    decreases n
  {
    1 + (if IsFolder(n.entry) then CountAll(n.children) else 0)
  }

  /** `_get_all_items_recursively` over an already listed folder. */
  function FlattenAll(nodes: seq<Node>, parent: Path): (r: seq<Item>)
    decreases nodes
    ensures |r| == CountAll(nodes)
    ensures forall j :: 0 <= j < |r| ==> parent <= r[j].path
  {
    if |nodes| == 0 then [] else FlattenNode(nodes[0], parent) + FlattenAll(nodes[1..], parent)
  }

  /** One child of a folder: its own item first, then (for a folder) its descendants. */
  function FlattenNode(n: Node, parent: Path): (r: seq<Item>)
    decreases n
    ensures |r| == CountNode(n)
    ensures r[0] == Placed(n.entry, parent)
    ensures forall j :: 0 <= j < |r| ==> parent <= r[j].path
    ensures IsFolder(n.entry) ==> forall j :: 1 <= j < |r| ==> parent + [n.entry.name] <= r[j].path
    ensures !IsFolder(n.entry) ==> |r| == 1
  {
    var here := parent + [n.entry.name];
    if IsFolder(n.entry) then
      [Item(n.entry.id, n.entry.name, n.entry.mimeType, here)] + FlattenAll(n.children, here)
    else
      [Item(n.entry.id, n.entry.name, n.entry.mimeType, parent)]
  }

  /**
    `e` is the entry of a node reached from `n` through folders whose names,
    outermost first, are `anc` (the folder `n` itself included when it is one).
   */
  ghost predicate ReachesFrom(n: Node, anc: Path, e: Entry)
    decreases n
  {
    || (anc == [] && n.entry == e)
    || (IsFolder(n.entry) && |anc| > 0 && anc[0] == n.entry.name && Reaches(n.children, anc[1..], e))
  }

  ghost predicate Reaches(nodes: seq<Node>, anc: Path, e: Entry)
    decreases nodes
  {
    exists i :: 0 <= i < |nodes| && ReachesFrom(nodes[i], anc, e)
  }

  /** An item of the flat list comes from one of the listed nodes. */
  lemma {:induction false} FlattenAllSplit(nodes: seq<Node>, parent: Path, x: Item)
    ensures x in FlattenAll(nodes, parent) <==> exists i :: 0 <= i < |nodes| && x in FlattenNode(nodes[i], parent)
    decreases nodes
  {
    if |nodes| > 0 {
      FlattenAllSplit(nodes[1..], parent, x);
      if x in FlattenAll(nodes[1..], parent) {
        var i :| 0 <= i < |nodes[1..]| && x in FlattenNode(nodes[1..][i], parent);
        assert x in FlattenNode(nodes[i + 1], parent);
      }
      if exists i :: 0 <= i < |nodes| && x in FlattenNode(nodes[i], parent) {
        var i :| 0 <= i < |nodes| && x in FlattenNode(nodes[i], parent);
        if i > 0 {
          assert x in FlattenNode(nodes[1..][i - 1], parent);
        }
      }
    }
  }

  /** Soundness: every emitted item is some reachable entry at its derived path. */
  lemma {:induction false} FlattenSound(nodes: seq<Node>, parent: Path, x: Item)
    requires x in FlattenAll(nodes, parent)
    ensures exists anc, e :: Reaches(nodes, anc, e) && x == Placed(e, parent + anc)
    decreases nodes
  {
    FlattenAllSplit(nodes, parent, x);
    var i :| 0 <= i < |nodes| && x in FlattenNode(nodes[i], parent);
    FlattenNodeSound(nodes[i], parent, x);
    var anc, e :| ReachesFrom(nodes[i], anc, e) && x == Placed(e, parent + anc);
    assert Reaches(nodes, anc, e);
  }

  lemma {:induction false} FlattenNodeSound(n: Node, parent: Path, x: Item)
    requires x in FlattenNode(n, parent)
    ensures exists anc, e :: ReachesFrom(n, anc, e) && x == Placed(e, parent + anc)
    decreases n
  {
    var here := parent + [n.entry.name];
    var r := FlattenNode(n, parent);
    if x == r[0] {
      assert parent + [] == parent;
      assert ReachesFrom(n, [], n.entry) && x == Placed(n.entry, parent + []);
    } else {
      assert IsFolder(n.entry);
      assert r == [r[0]] + FlattenAll(n.children, here);
      assert x in FlattenAll(n.children, here);
      FlattenSound(n.children, here, x);
      var anc', e :| Reaches(n.children, anc', e) && x == Placed(e, here + anc');
      var anc := [n.entry.name] + anc';
      assert anc[1..] == anc';
      assert ReachesFrom(n, anc, e);
      assert here + anc' == parent + anc;
      assert x == Placed(e, parent + anc);
    }
  }

  /** Completeness: every reachable entry is emitted at its derived path. */
  lemma {:induction false} FlattenComplete(nodes: seq<Node>, parent: Path, anc: Path, e: Entry)
    requires Reaches(nodes, anc, e)
    ensures Placed(e, parent + anc) in FlattenAll(nodes, parent)
    decreases nodes
  {
    var i :| 0 <= i < |nodes| && ReachesFrom(nodes[i], anc, e);
    FlattenNodeComplete(nodes[i], parent, anc, e);
    FlattenAllSplit(nodes, parent, Placed(e, parent + anc));
  }

  lemma {:induction false} FlattenNodeComplete(n: Node, parent: Path, anc: Path, e: Entry)
    requires ReachesFrom(n, anc, e)
    ensures Placed(e, parent + anc) in FlattenNode(n, parent)
    decreases n
  {
    if anc == [] && n.entry == e {
      assert parent + anc == parent;
      assert FlattenNode(n, parent)[0] == Placed(e, parent + anc);
    } else {
      assert IsFolder(n.entry) && |anc| > 0 && anc[0] == n.entry.name;
      var here := parent + [n.entry.name];
      var below := FlattenAll(n.children, here);
      FlattenComplete(n.children, here, anc[1..], e);
      assert here + anc[1..] == parent + anc by {
        assert anc == [anc[0]] + anc[1..];
        assert (parent + [anc[0]]) + anc[1..] == parent + ([anc[0]] + anc[1..]);
      }
      assert Placed(e, parent + anc) in below;
      assert FlattenNode(n, parent) == [Item(n.entry.id, n.entry.name, n.entry.mimeType, here)] + below;
    }
  }
}
