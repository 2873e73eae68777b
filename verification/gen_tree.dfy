/** scripts/gen-tree.js: the nested tree read by the site. `walk` maps every
    listing entry to a node (a subdirectory to a `dir` node holding its own
    walk, an image file to a `file` node) and `filter(Boolean)` drops the
    files that are not images. Nothing is skipped by name. The file uses
    `fs`, `path` and `isImage` without defining them: the listing is given
    as a value, `path.posix.join` is `Join`, and `isImage` is a parameter. */
module GenTree {
  import opened Paths
  import FsTree

  /** One node of the tree: `type: 'dir'` or `type: 'file'`. */
  datatype Item =
    | Dir(name: string, path: string, children: seq<Item>)
    | File(name: string, path: string, url: string)

  /** `walk(dir, base)` for a directory whose listing is `listing`:
      `items.map(...)` fused with `.filter(Boolean)`. At most one node per
      entry. */
  function Walk(listing: seq<FsTree.Node>, base: string, isImage: string -> bool): (r: seq<Item>)
    ensures |r| <= |listing|
    decreases listing
  {
    if listing == [] then []
    else
      var e := listing[0];
      var relPath := Join(base, e.name);
      (if e.Dir? then [Dir(e.name, relPath, Walk(e.children, relPath, isImage))]
       else if isImage(e.name) then [File(e.name, relPath, "/" + relPath)]
       else [])
      + Walk(listing[1..], base, isImage)
  }

  /** The entries that survive `filter(Boolean)`: every directory, and the
      files `isImage` accepts. */
  predicate Kept(e: FsTree.Node, isImage: string -> bool)
  {
    e.Dir? || isImage(e.name)
  }

  /** The kept entries of a listing, in listing order. */
  function KeptEntries(listing: seq<FsTree.Node>, isImage: string -> bool): (r: seq<FsTree.Node>)
    ensures |r| <= |listing|
    ensures forall e :: e in r ==> e in listing && Kept(e, isImage)
  {
    if listing == [] then []
    else (if Kept(listing[0], isImage) then [listing[0]] else []) + KeptEntries(listing[1..], isImage)
  }

  /** The node a kept entry becomes. */
  function NodeOf(e: FsTree.Node, base: string, isImage: string -> bool): Item
  {
    var relPath := Join(base, e.name);
    if e.Dir? then Dir(e.name, relPath, Walk(e.children, relPath, isImage))
    else File(e.name, relPath, "/" + relPath)
  }

  /** The walk is the order-preserving sub-sequence of the listing that
      `filter(Boolean)` keeps, each entry mapped to its node: every
      directory (whatever its name) gives a `dir` node whose children are
      its walk, and a file gives a node exactly when `isImage` holds. */
  lemma {:induction false} WalkIsKeptEntries(listing: seq<FsTree.Node>, base: string, isImage: string -> bool)
    ensures |Walk(listing, base, isImage)| == |KeptEntries(listing, isImage)|
    ensures forall k :: 0 <= k < |KeptEntries(listing, isImage)| ==>
      Walk(listing, base, isImage)[k] == NodeOf(KeptEntries(listing, isImage)[k], base, isImage)
    decreases listing
  {
    if listing != [] {
      var e, rest := listing[0], listing[1..];
      WalkIsKeptEntries(rest, base, isImage);
      if Kept(e, isImage) {
        assert KeptEntries(listing, isImage) == [e] + KeptEntries(rest, isImage);
        assert Walk(listing, base, isImage) == [NodeOf(e, base, isImage)] + Walk(rest, base, isImage);
      } else {
        assert KeptEntries(listing, isImage) == KeptEntries(rest, isImage);
        assert Walk(listing, base, isImage) == Walk(rest, base, isImage);
      }
    }
  }

  /** Every node's `path` is `base` posix-joined with its `name`, a `file`
      node's `url` is `'/' + path`, and a `dir` node's children are located
      below its own `path`. */
  predicate Located(items: seq<Item>, base: string)
  {
    forall k :: 0 <= k < |items| ==>
      && items[k].path == Join(base, items[k].name)
      && (items[k].File? ==> items[k].url == "/" + items[k].path)
      && (items[k].Dir? ==> Located(items[k].children, items[k].path))
  }

  /** Paths are built by joining at every depth. */
  lemma {:induction false} WalkLocated(listing: seq<FsTree.Node>, base: string, isImage: string -> bool)
    ensures Located(Walk(listing, base, isImage), base)
    decreases listing
  {
    if listing != [] {
      var e := listing[0];
      WalkLocated(listing[1..], base, isImage);
      if e.Dir? {
        WalkLocated(e.children, Join(base, e.name), isImage);
      }
    }
  }

  /** Every node's path, split on `/`, is the segments `top` of the
      directory it sits in followed by its own name. */
  predicate SegmentsBelow(items: seq<Item>, top: seq<string>)
  {
    forall k :: 0 <= k < |items| ==>
      && Split(items[k].path) == top + [items[k].name]
      && (items[k].Dir? ==> SegmentsBelow(items[k].children, top + [items[k].name]))
  }

  /** Path shape: for names that are single segments, `name` is the last
      segment of `path`, and a child's `path` extends its parent's by
      exactly one segment, at every depth. */
  lemma {:induction false} WalkSegments(listing: seq<FsTree.Node>, base: string, isImage: string -> bool)
    requires FsTree.SegmentsOk(listing)
    ensures SegmentsBelow(Walk(listing, base, isImage), Segments(base))
    decreases listing
  {
    if listing != [] {
      var e := listing[0];
      FsTree.SegmentsOkParts(listing);
      WalkSegments(listing[1..], base, isImage);
      JoinSegments(base, e.name);
      if e.Dir? {
        var rel := Join(base, e.name);
        assert Segments(rel) == Segments(base) + [e.name];
        WalkSegments(e.children, rel, isImage);
      }
    }
  }
}
