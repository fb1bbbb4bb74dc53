/**
  `get_document_tree` as it runs: folder nodes with child lists that are appended to through aliases, found
  again by their path in a map.
*/
module FolderTreeBuilder {
  import opened Basics
  import opened FolderTree

  datatype TreeNode = FolderRef(folder: FolderNode) | FileLeaf(doc: Document)

  class FolderNode {
    const name: string
    const path: string
    ghost const segments: seq<string>
    var children: seq<TreeNode>

    constructor (name: string, path: string, ghost segments: seq<string>)
      ensures this.name == name && this.path == path && this.segments == segments && children == []
    {
      this.name, this.path, this.segments, children := name, path, segments, [];
    }
  }

  type FolderMap = map<string, FolderNode>

  /** The nodes show the trees, following folder references through the heap. */
  ghost predicate Shows(nodes: seq<TreeNode>, trees: seq<Tree>, folders: set<FolderNode>)
    reads folders
    decreases trees
  {
    && |nodes| == |trees|
    && forall k :: 0 <= k < |trees| ==> ShowsOne(nodes[k], trees[k], folders)
  }

  ghost predicate ShowsOne(node: TreeNode, tree: Tree, folders: set<FolderNode>)
    reads folders
    decreases tree
  {
    match tree
    case File(d) => node == FileLeaf(d)
    case Folder(name, path, children) =>
      node.FolderRef? && node.folder in folders && node.folder.name == name && node.folder.path == path
      && Shows(node.folder.children, children, folders)
  }

  // ---------------------------------------------------------------------------------
  // Invariants, while a row with the given segments has been walked down j levels
  // ---------------------------------------------------------------------------------

  ghost function Partial(docs: seq<Document>, segments: seq<string>, j: nat, prefix: seq<string>): seq<Entry> {
    if |prefix| < j && prefix < segments then WithSub(Listing(docs, prefix), segments[|prefix|])
    else Listing(docs, prefix)
  }

  ghost predicate Known(docs: seq<Document>, segments: seq<string>, j: nat, q: seq<string>) {
    IsFolder(docs, q) || (q != [] && |q| <= j && q <= segments)
  }

  ghost predicate MapOk(root: FolderNode, folders: FolderMap) {
    && root.segments == []
    && forall p :: p in folders ==>
         && folders[p] != root && folders[p].path == p == JoinPath(folders[p].segments)
         && folders[p].segments != [] && ValidSegments(folders[p].segments)
         && folders[p].name == folders[p].segments[|folders[p].segments| - 1]
  }

  ghost predicate EntryOk(at: seq<string>, folders: FolderMap, child: TreeNode, entry: Entry) {
    match entry
    case Leaf(d) => child == FileLeaf(d)
    case Sub(name) => JoinPath(at + [name]) in folders && child == FolderRef(folders[JoinPath(at + [name])])
  }

  ghost predicate Faithful(at: seq<string>, folders: FolderMap, children: seq<TreeNode>, listing: seq<Entry>) {
    && |children| == |listing|
    && forall k :: 0 <= k < |listing| ==> EntryOk(at, folders, children[k], listing[k])
  }

  ghost predicate MapComplete(folders: FolderMap, docs: seq<Document>, segments: seq<string>, j: nat) {
    forall q :: ValidSegments(q) ==> (JoinPath(q) in folders <==> Known(docs, segments, j, q))
  }

  ghost predicate NodeOk(node: FolderNode, folders: FolderMap, docs: seq<Document>, segments: seq<string>, j: nat)
    reads node
  {
    Faithful(node.segments, folders, node.children, Partial(docs, segments, j, node.segments))
  }

  ghost predicate State(root: FolderNode, folders: FolderMap, docs: seq<Document>, segments: seq<string>, j: nat)
    reads root, folders.Values
  {
    && MapOk(root, folders) && MapComplete(folders, docs, segments, j)
    && NodeOk(root, folders, docs, segments, j)
    && forall p :: p in folders ==> NodeOk(folders[p], folders, docs, segments, j)
  }

  /** The node that the list `parent_list` belongs to. */
  ghost predicate IsNodeAt(node: FolderNode, root: FolderNode, folders: FolderMap, at: seq<string>) {
    node.segments == at && (if at == [] then node == root else JoinPath(at) in folders && folders[JoinPath(at)] == node)
  }

  lemma OneNodePerPrefix(root: FolderNode, folders: FolderMap, node: FolderNode, at: seq<string>, p: string)
    requires MapOk(root, folders) && IsNodeAt(node, root, folders, at) && p in folders
    ensures folders[p] == node <==> folders[p].segments == at
    ensures root == node <==> at == []
  {
  }

  lemma SegmentsPrefixValid(segments: seq<string>, k: nat)
    requires ValidSegments(segments) && k <= |segments|
    ensures ValidSegments(segments[..k])
  {
  }

  lemma JoinStep(segments: seq<string>, j: nat)
    requires j < |segments|
    ensures JoinPath(segments[..j + 1]) == if j == 0 then segments[0] else JoinPath(segments[..j]) + "/" + segments[j]
  {
    assert segments[..j + 1][..j] == segments[..j];
  }

  lemma {:induction false} NonEmptyJoin(segments: seq<string>)
    requires ValidSegments(segments) && segments != []
    ensures JoinPath(segments) != ""
  {
  }

  lemma NoFolderNoListing(docs: seq<Document>, q: seq<string>)
    requires q != [] && !IsFolder(docs, q)
    ensures Listing(docs, q) == []
    decreases |docs|
  {
    if docs != [] {
      FolderGrows(docs[..|docs| - 1], docs[|docs| - 1], q);
      assert docs[..|docs| - 1] + [docs[|docs| - 1]] == docs;
      NoFolderNoListing(docs[..|docs| - 1], q);
    }
  }

  /** A level whose folder exists already changes no listing. */
  lemma ExistingLevel(root: FolderNode, folders: FolderMap, docs: seq<Document>, segments: seq<string>, j: nat)
    requires State(root, folders, docs, segments, j) && ValidSegments(segments) && j < |segments|
    requires JoinPath(segments[..j + 1]) in folders
    ensures State(root, folders, docs, segments, j + 1)
  {
    hide Listing, IsFolder, JoinPath, Faithful, WithSub;
    var q := segments[..j + 1];
    SegmentsPrefixValid(segments, j + 1);
    assert Known(docs, segments, j, q);
    ListedSub(docs, segments[..j], segments[j]);
    assert segments[..j] + [segments[j]] == q;
    forall prefix ensures Partial(docs, segments, j + 1, prefix) == Partial(docs, segments, j, prefix) {
      if prefix < segments && |prefix| == j {
        assert prefix == segments[..j];
        SubListed(docs, prefix, segments[j]);
      }
    }
    forall x | ValidSegments(x) ensures Known(docs, segments, j + 1, x) <==> Known(docs, segments, j, x) {
      if x <= segments && |x| == j + 1 {
        assert x == q;
      }
    }
  }

  lemma SubListed(docs: seq<Document>, prefix: seq<string>, name: string)
    requires Sub(name) in Listing(docs, prefix)
    ensures WithSub(Listing(docs, prefix), name) == Listing(docs, prefix)
  {
  }

  lemma MoreFoldersFaithful(at: seq<string>, folders: FolderMap, more: FolderMap, children: seq<TreeNode>, listing: seq<Entry>)
    requires Faithful(at, folders, children, listing)
    requires forall p :: p in folders ==> p in more && more[p] == folders[p]
    ensures Faithful(at, more, children, listing)
  {
  }

  /** What the listings look like after a level whose folder is new. */
  lemma NewLevelListings(docs: seq<Document>, segments: seq<string>, j: nat)
    requires ValidSegments(segments) && j < |segments| && !IsFolder(docs, segments[..j + 1])
    ensures Partial(docs, segments, j + 1, segments[..j]) == Partial(docs, segments, j, segments[..j]) + [Sub(segments[j])]
    ensures Partial(docs, segments, j + 1, segments[..j + 1]) == []
    ensures forall prefix :: prefix != segments[..j] ==> Partial(docs, segments, j + 1, prefix) == Partial(docs, segments, j, prefix)
  {
    hide IsFolder;
    ListedSub(docs, segments[..j], segments[j]);
    assert segments[..j] + [segments[j]] == segments[..j + 1];
    NoFolderNoListing(docs, segments[..j + 1]);
  }

  lemma NewLevelKnown(folders: FolderMap, docs: seq<Document>, segments: seq<string>, j: nat, node: FolderNode)
    requires MapComplete(folders, docs, segments, j) && ValidSegments(segments) && j < |segments|
    ensures MapComplete(folders[JoinPath(segments[..j + 1]) := node], docs, segments, j + 1)
  {
    hide IsFolder, JoinPath;
    var q := segments[..j + 1];
    SegmentsPrefixValid(segments, j + 1);
    forall x | ValidSegments(x)
      ensures JoinPath(x) in folders[JoinPath(q) := node] <==> Known(docs, segments, j + 1, x)
    {
      if JoinPath(x) == JoinPath(q) {
        SegmentsOfJoin(x);
        SegmentsOfJoin(q);
      }
      if x <= segments && |x| == j + 1 {
        assert x == q;
      }
    }
  }

  /** One level down: find or create the folder and return its node. */
  method Descend(root: FolderNode, folders: FolderMap, parent: FolderNode, name: string, currentPath: string,
                 ghost docs: seq<Document>, ghost segments: seq<string>, ghost j: nat)
    returns (folders': FolderMap, node: FolderNode)
    requires ValidSegments(segments) && j < |segments| && name == segments[j]
    requires currentPath == JoinPath(segments[..j + 1])
    requires State(root, folders, docs, segments, j) && IsNodeAt(parent, root, folders, segments[..j])
    modifies parent
    ensures State(root, folders', docs, segments, j + 1) && IsNodeAt(node, root, folders', segments[..j + 1])
    ensures fresh(folders'.Values - folders.Values)
  {
    hide Partial, JoinPath, Known, Faithful, MapComplete;
    SegmentsPrefixValid(segments, j + 1);
    if currentPath !in folders {
      assert !IsFolder(docs, segments[..j + 1]) by {
        AbsentIsNew(folders, docs, segments, j);
      }
      node := new FolderNode(name, currentPath, segments[..j + 1]);
      folders' := folders[currentPath := node];
      assert segments[..j] + [name] == segments[..j + 1];
      NewLevelListings(docs, segments, j);
      NewLevelKnown(folders, docs, segments, j, node);
      AppendedFaithful(segments[..j], folders, folders', parent.children, Partial(docs, segments, j, segments[..j]), node, name);
      forall p | p in folders && folders[p] != parent ensures NodeOk(folders'[p], folders', docs, segments, j + 1) {
        OneNodePerPrefix(root, folders, parent, segments[..j], p);
        assert NodeOk(folders[p], folders, docs, segments, j);
        MoreFoldersFaithful(folders[p].segments, folders, folders', folders[p].children, Partial(docs, segments, j, folders[p].segments));
      }
      if root != parent {
        assert NodeOk(root, folders, docs, segments, j);
        MoreFoldersFaithful(root.segments, folders, folders', root.children, Partial(docs, segments, j, root.segments));
      }
      parent.children := parent.children + [FolderRef(node)];
      NothingFaithful(segments[..j + 1], folders');
      assert MapOk(root, folders');
    } else {
      ExistingLevel(root, folders, docs, segments, j);
      folders' := folders;
      node := folders[currentPath];
      KeyIsSegments(root, folders, segments, j);
    }
  }

  lemma KeyIsSegments(root: FolderNode, folders: FolderMap, segments: seq<string>, j: nat)
    requires MapOk(root, folders) && ValidSegments(segments) && j < |segments|
    requires JoinPath(segments[..j + 1]) in folders
    ensures folders[JoinPath(segments[..j + 1])].segments == segments[..j + 1]
  {
    SegmentsPrefixValid(segments, j + 1);
    SegmentsOfJoin(segments[..j + 1]);
    SegmentsOfJoin(folders[JoinPath(segments[..j + 1])].segments);
  }

  lemma NothingFaithful(at: seq<string>, folders: FolderMap)
    ensures Faithful(at, folders, [], [])
  {
  }

  lemma AbsentIsNew(folders: FolderMap, docs: seq<Document>, segments: seq<string>, j: nat)
    requires MapComplete(folders, docs, segments, j) && ValidSegments(segments) && j < |segments|
    requires JoinPath(segments[..j + 1]) !in folders
    ensures !IsFolder(docs, segments[..j + 1])
  {
    SegmentsPrefixValid(segments, j + 1);
    assert !Known(docs, segments, j, segments[..j + 1]);
  }

  lemma AppendedFaithful(at: seq<string>, folders: FolderMap, more: FolderMap, children: seq<TreeNode>, listing: seq<Entry>,
                         node: FolderNode, name: string)
    requires Faithful(at, folders, children, listing)
    requires JoinPath(at + [name]) !in folders && more == folders[JoinPath(at + [name]) := node]
    ensures Faithful(at, more, children + [FolderRef(node)], listing + [Sub(name)])
  {
  }

  // ---------------------------------------------------------------------------------
  // The whole loop
  // ---------------------------------------------------------------------------------

  lemma StartState(root: FolderNode)
    requires root.segments == [] && root.children == []
    ensures State(root, map[], [], [], 0)
  {
  }

  /** Between two rows nothing is walked, so the segments do not matter. */
  lemma BetweenRows(root: FolderNode, folders: FolderMap, docs: seq<Document>, segments: seq<string>)
    requires State(root, folders, docs, [], 0)
    ensures State(root, folders, docs, segments, 0)
  {
    hide IsFolder, JoinPath, Listing;
    forall q ensures Known(docs, segments, 0, q) <==> Known(docs, [], 0, q) {
    }
    forall q ensures Partial(docs, segments, 0, q) == Partial(docs, [], 0, q) {
    }
  }

  lemma LeafListings(docs: seq<Document>, d: Document, prefix: seq<string>)
    ensures Listing(docs + [d], prefix)
         == Partial(docs, SegmentsOf(d), |SegmentsOf(d)|, prefix) + (if prefix == SegmentsOf(d) then [Leaf(d)] else [])
  {
    hide SegmentsOf;
    ListingOneMore(docs, d, prefix);
  }

  lemma LeafKnown(docs: seq<Document>, d: Document, q: seq<string>)
    ensures IsFolder(docs + [d], q) <==> Known(docs, SegmentsOf(d), |SegmentsOf(d)|, q)
  {
    hide SegmentsOf;
    FolderGrows(docs, d, q);
  }

  lemma LeafFaithful(at: seq<string>, folders: FolderMap, children: seq<TreeNode>, listing: seq<Entry>, d: Document)
    requires Faithful(at, folders, children, listing)
    ensures Faithful(at, folders, children + [FileLeaf(d)], listing + [Leaf(d)])
  {
  }

  /** Adding the document below its last folder completes its row. */
  method AddLeaf(root: FolderNode, folders: FolderMap, parent: FolderNode, d: Document, ghost docs: seq<Document>)
    requires State(root, folders, docs, SegmentsOf(d), |SegmentsOf(d)|)
    requires IsNodeAt(parent, root, folders, SegmentsOf(d))
    modifies parent
    ensures State(root, folders, docs + [d], [], 0)
  {
    hide SegmentsOf, Partial, Listing, Known, JoinPath, Faithful, IsFolder;
    ghost var segments := SegmentsOf(d);
    forall p | p in folders ensures folders[p] == parent <==> folders[p].segments == segments {
      OneNodePerPrefix(root, folders, parent, segments, p);
    }
    forall q
      ensures Partial(docs + [d], [], 0, q) == Partial(docs, segments, |segments|, q) + (if q == segments then [Leaf(d)] else [])
      ensures Known(docs + [d], [], 0, q) <==> Known(docs, segments, |segments|, q)
    {
      LeafListings(docs, d, q);
      LeafKnown(docs, d, q);
      NothingWalked(docs + [d], q);
    }
    assert NodeOk(parent, folders, docs, segments, |segments|);
    LeafFaithful(segments, folders, parent.children, Partial(docs, segments, |segments|, segments), d);
    parent.children := parent.children + [FileLeaf(d)];
    forall q | q != segments
      ensures Partial(docs + [d], [], 0, q) == Partial(docs, segments, |segments|, q)
    {
      assert Partial(docs, segments, |segments|, q) + [] == Partial(docs, segments, |segments|, q);
    }
    forall p | p in folders ensures NodeOk(folders[p], folders, docs + [d], [], 0) {
    }
    assert NodeOk(root, folders, docs + [d], [], 0);
  }

  lemma NothingWalked(docs: seq<Document>, q: seq<string>)
    ensures Partial(docs, [], 0, q) == Listing(docs, q)
    ensures Known(docs, [], 0, q) <==> IsFolder(docs, q)
  {
  }

  /**
    The loop over the rows: the nodes it leaves show the recursive group-by of the documents, and the map
    holds one folder for every distinct non-empty prefix of a document's segments, and no other.
    */
  method GetDocumentTree(docs: seq<Document>) returns (tree: seq<TreeNode>, folders: FolderMap)
    ensures Shows(tree, Build(docs, []), folders.Values)
    ensures forall q :: ValidSegments(q) ==> (JoinPath(q) in folders <==> IsFolder(docs, q))
    ensures fresh(folders.Values)
  {
    hide State, IsNodeAt, JoinPath, IsFolder, SegmentsOf, Build, Shows;
    var root := new FolderNode("", "", []);
    folders := map[];
    StartState(root);
    var i := 0;
    while i < |docs|
      invariant 0 <= i <= |docs|
      invariant State(root, folders, docs[..i], [], 0)
      invariant fresh(root) && fresh(folders.Values)
    {
      var d := docs[i];
      var segments := SegmentsOf(d);
      SegmentsValid(d);
      BetweenRows(root, folders, docs[..i], segments);
      RootIsNode(root, folders, docs[..i], segments);
      var parent := root;
      var currentPath := "";
      var j := 0;
      while j < |segments|
        invariant 0 <= j <= |segments|
        invariant State(root, folders, docs[..i], segments, j)
        invariant IsNodeAt(parent, root, folders, segments[..j])
        invariant currentPath == JoinPath(segments[..j])
        invariant fresh(root) && fresh(folders.Values) && fresh(parent)
      {
        JoinStep(segments, j);
        JoinEmptyOnlyAtRoot(segments, j);
        currentPath := if currentPath != "" then currentPath + "/" + segments[j] else segments[j];
        folders, parent := Descend(root, folders, parent, segments[j], currentPath, docs[..i], segments, j);
        NodeIsRootOrMapped(parent, root, folders, segments[..j + 1]);
        j := j + 1;
      }
      assert segments[..j] == segments;
      AddLeaf(root, folders, parent, d, docs[..i]);
      assert docs[..i + 1] == docs[..i] + [d];
      i := i + 1;
    }
    assert docs[..i] == docs;
    tree := root.children;
    StateMapsFolders(root, folders, docs);
    StateShows(root, root, folders, docs);
  }

  lemma SegmentsValid(d: Document)
    ensures ValidSegments(SegmentsOf(d))
  {
    PiecesValid(PathOf(d), "");
  }

  lemma RootIsNode(root: FolderNode, folders: FolderMap, docs: seq<Document>, segments: seq<string>)
    requires State(root, folders, docs, segments, 0)
    ensures IsNodeAt(root, root, folders, segments[..0]) && JoinPath(segments[..0]) == ""
  {
  }

  lemma JoinEmptyOnlyAtRoot(segments: seq<string>, j: nat)
    requires ValidSegments(segments) && j <= |segments|
    ensures JoinPath(segments[..j]) == "" <==> j == 0
  {
    if j > 0 {
      SegmentsPrefixValid(segments, j);
      NonEmptyJoin(segments[..j]);
    }
  }

  lemma NodeIsRootOrMapped(node: FolderNode, root: FolderNode, folders: FolderMap, at: seq<string>)
    requires IsNodeAt(node, root, folders, at)
    ensures node == root || node in folders.Values
  {
  }

  lemma StateMapsFolders(root: FolderNode, folders: FolderMap, docs: seq<Document>)
    requires State(root, folders, docs, [], 0)
    ensures forall q :: ValidSegments(q) ==> (JoinPath(q) in folders <==> IsFolder(docs, q))
  {
    hide IsFolder, JoinPath, Faithful, Partial;
    forall q | ValidSegments(q) ensures JoinPath(q) in folders <==> IsFolder(docs, q) {
      NothingWalked(docs, q);
    }
  }

  /** Reading the nodes off the heap gives the group-by. */
  lemma {:induction false} StateShows(root: FolderNode, node: FolderNode, folders: FolderMap, docs: seq<Document>)
    requires State(root, folders, docs, [], 0)
    requires node == root || node in folders.Values
    ensures Shows(node.children, Build(docs, node.segments), folders.Values)
    decreases if |node.segments| <= Depth(docs) then Depth(docs) - |node.segments| else 0
  {
    hide IsFolder, JoinPath, Listing;
    var entries, trees := Listing(docs, node.segments), Build(docs, node.segments);
    NothingWalked(docs, node.segments);
    assert NodeOk(node, folders, docs, [], 0);
    EntryTrees(docs, node.segments, entries);
    forall k | 0 <= k < |trees| ensures ShowsOne(node.children[k], trees[k], folders.Values) {
      assert EntryOk(node.segments, folders, node.children[k], entries[k]);
      if entries[k].Sub? {
        var child := node.children[k].folder;
        assert entries[k] in entries;
        ListedSub(docs, node.segments, entries[k].name);
        ChildSegments(root, folders, node, docs, entries[k].name);
        assert child in folders.Values;
        StateShows(root, child, folders, docs);
      }
    }
  }

  lemma ChildSegments(root: FolderNode, folders: FolderMap, node: FolderNode, docs: seq<Document>, name: string)
    requires State(root, folders, docs, [], 0)
    requires JoinPath(node.segments + [name]) in folders && IsFolder(docs, node.segments + [name])
    ensures folders[JoinPath(node.segments + [name])].segments == node.segments + [name]
  {
    hide Listing, Faithful, Partial;
    var q := node.segments + [name];
    FolderIsValid(docs, q);
    SegmentsOfJoin(q);
    SegmentsOfJoin(folders[JoinPath(q)].segments);
  }

  lemma FolderIsValid(docs: seq<Document>, q: seq<string>)
    requires IsFolder(docs, q)
    ensures ValidSegments(q)
  {
    var i :| 0 <= i < |docs| && q <= SegmentsOf(docs[i]);
    SegmentsValid(docs[i]);
  }
}
