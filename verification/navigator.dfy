/** site/main.js: the browser side. It resolves the `path` query value in the
    tree written by gen-tree.js, builds the breadcrumb trail, splits the
    current directory into folders and files, and pages the files 24 at a
    time. The tree is an input here: the source loads it with
    `fetch('/file-tree.json').键，然后(r => r.json())`, where the intended
    call is `.then`. */
module Navigator {
  import opened Paths
  import opened GenTree
  import FsTree

  datatype Option<T> = None | Some(value: T)

  /** `PAGE_SIZE`. */
  const PageSize: nat := 24

  /** `i.type === 'dir' && i.name === p`. */
  predicate IsDirNamed(item: Item, name: string)
  {
    item.Dir? && item.name == name
  }

  /** `list.find(i => i.type === 'dir' && i.name === name)`, as an index:
      the first directory entry with exactly that name; files are never
      matched. */
  function FindDir(list: seq<Item>, name: string): (r: Option<nat>)
    ensures r.Some? ==> r.value < |list| && IsDirNamed(list[r.value], name)
    ensures r.Some? ==> forall k :: 0 <= k < r.value ==> !IsDirNamed(list[k], name)
    ensures r.None? ==> forall k :: 0 <= k < |list| ==> !IsDirNamed(list[k], name)
  {
    if list == [] then None
    else if IsDirNamed(list[0], name) then Some(0)
    else match FindDir(list[1..], name)
      case None => None
      case Some(k) => Some(k + 1)
  }

  /** The children list reached from `list` by following the directory
      names `parts` in order; `[]` as soon as one is missing. */
  function Descend(list: seq<Item>, parts: seq<string>): seq<Item>
    decreases |parts|
  {
    if parts == [] then list
    else match FindDir(list, parts[0])
      case None => []
      case Some(k) => Descend(list[k].children, parts[1..])
  }

  /** What `findNode(list, path)` returns. */
  function Navigate(list: seq<Item>, path: string): seq<Item>
  {
    if path == "" then list else Descend(list, Split(path))
  }

  /** `findNode(list, path)`: the loop moves `cur` one directory down per
      segment of `path.split('/')`. */
  method FindNode(list: seq<Item>, path: string) returns (cur: seq<Item>)
    ensures cur == Navigate(list, path)
    ensures path == "" ==> cur == list
    ensures path != "" && (forall k :: 0 <= k < |list| ==> !IsDirNamed(list[k], Split(path)[0]))
      ==> cur == []
  {
    if path == "" { return list; }
    var parts := Split(path);
    cur := list;
    for i := 0 to |parts|
      invariant cur == Descend(list, parts[..i])
      invariant Descend(cur, parts[i..]) == Descend(list, parts)
    {
      assert parts[i..][0] == parts[i] && parts[i..][1..] == parts[i + 1..];
      DescendAppend(list, parts[..i], [parts[i]]);
      assert parts[..i] + [parts[i]] == parts[..i + 1];
      var dir := FindDir(cur, parts[i]);
      if dir.None? { return []; }
      cur := cur[dir.value].children;
    }
    assert parts[|parts|..] == [];
  }

  /** Nothing is found below an empty list. */
  lemma {:induction false} DescendFromEmpty(parts: seq<string>)
    ensures Descend([], parts) == []
  {
  }

  /** Following `a` and then `b` is following `a + b`. */
  lemma {:induction false} DescendAppend(list: seq<Item>, a: seq<string>, b: seq<string>)
    ensures Descend(list, a + b) == Descend(Descend(list, a), b)
    decreases |a|
  {
    if a == [] {
      assert a + b == b;
    } else {
      assert (a + b)[0] == a[0] && (a + b)[1..] == a[1..] + b;
      match FindDir(list, a[0])
      case None =>
        DescendFromEmpty(b);
      case Some(k) =>
        DescendAppend(list[k].children, a[1..], b);
    }
  }

  /** `findNode(list, "a/b") == findNode(findNode(list, "a"), "b")`, for any
      two non-empty paths. */
  lemma NavigateCompose(list: seq<Item>, p: string, q: string)
    requires p != "" && q != ""
    ensures Navigate(list, p + "/" + q) == Navigate(Navigate(list, p), q)
  {
    SplitConcat(p, q);
    DescendAppend(list, Split(p), Split(q));
  }

  /** Looking one name up in a walk whose listing has distinct names finds
      the node of the directory entry with that name. */
  lemma {:induction false} FindInWalk(listing: seq<FsTree.Node>, base: string, isImage: string -> bool, i: nat)
    requires FsTree.DistinctNames(listing) && i < |listing| && listing[i].Dir?
    ensures Descend(Walk(listing, base, isImage), [listing[i].name])
      == Walk(listing[i].children, Join(base, listing[i].name), isImage)
    decreases listing
  {
    var name := listing[i].name;
    var items := Walk(listing, base, isImage);
    if i > 0 {
      var tail := listing[1..];
      assert FsTree.DistinctNames(tail) by {
        forall a, b | 0 <= a < b < |tail| ensures tail[a].name != tail[b].name {
          assert tail[a] == listing[a + 1] && tail[b] == listing[b + 1];
        }
      }
      assert tail[i - 1] == listing[i];
      FindInWalk(tail, base, isImage, i - 1);
      var rest := Walk(tail, base, isImage);
      var head := items[..|items| - |rest|];
      assert items == head + rest;
      assert listing[0].name != name;
      if head != [] {
        assert !IsDirNamed(items[0], name);
        assert items[1..] == rest;
      }
    }
  }

  /** Opening a folder card: if the current view shows the walk of a
      listing at `currentPath`, then navigating to the card's path
      (`currentPath` joined with the folder's name, which is the `path` the
      card carries) shows the walk of that folder's own listing, below that
      path. With `Navigate(tree, "") == tree` for the root, every folder
      reached by clicking cards shows its own contents. */
  lemma OpenFolder(tree: seq<Item>, currentPath: string, listing: seq<FsTree.Node>,
                   isImage: string -> bool, i: nat)
    requires FsTree.DistinctNames(listing) && i < |listing| && listing[i].Dir?
    requires SegmentOk(listing[i].name)
    requires Navigate(tree, currentPath) == Walk(listing, currentPath, isImage)
    ensures Navigate(tree, Join(currentPath, listing[i].name))
      == Walk(listing[i].children, Join(currentPath, listing[i].name), isImage)
  {
    var name := listing[i].name;
    SplitNoSlash(name);
    FindInWalk(listing, currentPath, isImage, i);
    if currentPath != "" {
      NavigateCompose(tree, currentPath, name);
    }
  }

  /** One link of the breadcrumb: home, or a folder crumb whose href carries
      `acc` and whose text is the segment. */
  datatype Link = Home | Crumb(target: string, text: string)

  /** The value of `acc` after `k` turns of the loop in `renderBreadcrumb`:
      `acc += (acc ? '/' : '') + p`. */
  function Acc(parts: seq<string>, k: nat): string
    requires k <= |parts|
  {
    if k == 0 then ""
    else
      var acc := Acc(parts, k - 1);
      acc + (if acc != "" then "/" else "") + parts[k - 1]
  }

  /** The crumbs after `k` turns of the loop, one per segment so far. */
  function Crumbs(parts: seq<string>, k: nat): seq<Link>
    requires k <= |parts|
  {
    if k == 0 then [] else Crumbs(parts, k - 1) + [Crumb(Acc(parts, k), parts[k - 1])]
  }

  /** The crumb for segment `k` links to the k-th `acc` and shows that
      segment. */
  lemma {:induction false} CrumbsAt(parts: seq<string>, n: nat)
    requires n <= |parts|
    ensures |Crumbs(parts, n)| == n
    ensures forall k :: 1 <= k <= n ==> Crumbs(parts, n)[k - 1] == Crumb(Acc(parts, k), parts[k - 1])
  {
    if n > 0 {
      CrumbsAt(parts, n - 1);
    }
  }

  /** `renderBreadcrumb()`: the home link, then one crumb per segment of
      the current path. */
  method RenderBreadcrumb(currentPath: string) returns (links: seq<Link>)
    ensures |links| >= 1 && links[0] == Home
    ensures currentPath == "" ==> links == [Home]
    ensures currentPath != "" ==> |links| == |Split(currentPath)| + 1
    ensures currentPath != "" ==> forall k :: 1 <= k < |links| ==>
      links[k] == Crumb(Acc(Split(currentPath), k), Split(currentPath)[k - 1])
  {
    links := [Home];
    if currentPath == "" { return; }
    var parts := Split(currentPath);
    var acc := "";
    for i := 0 to |parts|
      invariant acc == Acc(parts, i)
      invariant links == [Home] + Crumbs(parts, i)
    {
      acc := acc + (if acc != "" then "/" else "") + parts[i];
      links := links + [Crumb(acc, parts[i])];
    }
    CrumbsAt(parts, |parts|);
  }

  /** Joining one more part. */
  lemma {:induction false} JoinSlashSnoc(parts: seq<string>, x: string)
    requires |parts| >= 1
    ensures JoinSlash(parts + [x]) == JoinSlash(parts) + "/" + x
  {
    if |parts| > 1 {
      assert (parts + [x])[1..] == parts[1..] + [x];
      JoinSlashSnoc(parts[1..], x);
    }
  }

  /** A join starts with its first part. */
  lemma {:induction false} JoinSlashPrefix(parts: seq<string>)
    requires |parts| >= 1
    ensures |JoinSlash(parts)| >= |parts[0]|
  {
  }

  /** When the first segment is not empty, the k-th crumb's `acc` is the
      first k segments joined with `/`. */
  lemma {:induction false} AccJoinsPrefix(parts: seq<string>, k: nat)
    requires 1 <= k <= |parts| && parts[0] != ""
    ensures Acc(parts, k) == JoinSlash(parts[..k])
  {
    if k > 1 {
      AccJoinsPrefix(parts, k - 1);
      JoinSlashPrefix(parts[..k - 1]);
      JoinSlashSnoc(parts[..k - 1], parts[k - 1]);
      assert parts[..k - 1] + [parts[k - 1]] == parts[..k];
    }
  }

  /** For a current path that does not start with `/`, the last crumb
      links to the current path itself. */
  lemma LastCrumbIsCurrentPath(currentPath: string)
    requires currentPath != "" && currentPath[0] != '/'
    ensures Acc(Split(currentPath), |Split(currentPath)|) == currentPath
  {
    var parts := Split(currentPath);
    assert parts[0] != "";
    JoinSplit(currentPath);
    AccJoinsPrefix(parts, |parts|);
    assert parts[..|parts|] == parts;
  }

  /** An empty first segment adds nothing to `acc`: the accumulation over
      `parts` is that over `parts[1..]`, one turn later. */
  lemma {:induction false} AccAfterEmpty(parts: seq<string>, k: nat)
    requires 1 <= k <= |parts| && parts[0] == ""
    ensures Acc(parts, k) == Acc(parts[1..], k - 1)
  {
    if k > 1 {
      AccAfterEmpty(parts, k - 1);
      assert parts[1..][k - 2] == parts[k - 1];
    }
  }

  /** A leading `/` gives an empty first segment, which `acc ? '/' : ''`
      swallows: for `"/" + p` the last crumb links to `p`, not to the
      current path. */
  lemma LeadingSlashDropped(p: string)
    requires p != "" && p[0] != '/'
    ensures Split("/" + p) == [""] + Split(p)
    ensures Acc(Split("/" + p), |Split("/" + p)|) == p
  {
    SplitLeadingSlash(p);
    var parts := Split("/" + p);
    AccAfterEmpty(parts, |parts|);
    assert parts[1..] == Split(p);
    LastCrumbIsCurrentPath(p);
  }

  /** `currentList.filter(i => i.type === 'dir')`. */
  function Dirs(list: seq<Item>): (r: seq<Item>)
    ensures |r| <= |list|
    ensures forall x :: x in r <==> x in list && x.Dir?
  {
    if list == [] then []
    else (if list[0].Dir? then [list[0]] else []) + Dirs(list[1..])
  }

  /** `currentList.filter(i => i.type === 'file')`. */
  function Files(list: seq<Item>): (r: seq<Item>)
    ensures |r| <= |list|
    ensures forall x :: x in r <==> x in list && x.File?
  {
    if list == [] then []
    else (if list[0].File? then [list[0]] else []) + Files(list[1..])
  }

  /** The folder filter keeps listing order: filtering a concatenation
      filters each part. */
  lemma {:induction false} DirsAppend(a: seq<Item>, b: seq<Item>)
    ensures Dirs(a + b) == Dirs(a) + Dirs(b)
    decreases |a|
  {
    if a == [] {
      assert a + b == b;
    } else {
      assert (a + b)[0] == a[0] && (a + b)[1..] == a[1..] + b;
      DirsAppend(a[1..], b);
    }
  }

  /** The file filter keeps listing order likewise. */
  lemma {:induction false} FilesAppend(a: seq<Item>, b: seq<Item>)
    ensures Files(a + b) == Files(a) + Files(b)
    decreases |a|
  {
    if a == [] {
      assert a + b == b;
    } else {
      assert (a + b)[0] == a[0] && (a + b)[1..] == a[1..] + b;
      FilesAppend(a[1..], b);
    }
  }

  /** Every entry is a folder or a file and lands in exactly one of the two
      lists. */
  lemma {:induction false} FiltersPartition(list: seq<Item>)
    ensures multiset(Dirs(list)) + multiset(Files(list)) == multiset(list)
    ensures |Dirs(list)| + |Files(list)| == |list|
  {
    if list != [] {
      FiltersPartition(list[1..]);
      assert list == [list[0]] + list[1..];
    }
  }

  function Min(a: int, b: int): int { if a <= b then a else b }
  function Max(a: int, b: int): int { if a <= b then b else a }

  /** `s.slice(start, end)`: a negative bound counts from the end, and both
      bounds are clamped to the sequence. */
  function Slice<T>(s: seq<T>, start: int, end: int): (r: seq<T>)
    ensures |r| <= |s|
    ensures start <= end ==> |r| <= end - start
    ensures 0 <= start <= end ==> r == s[Min(start, |s|)..Min(end, |s|)]
  {
    var from := if start < 0 then Max(|s| + start, 0) else Min(start, |s|);
    var to := if end < 0 then Max(|s| + end, 0) else Min(end, |s|);
    if from < to then s[from..to] else []
  }

  /** `files.slice(start, start + PAGE_SIZE)` with
      `start = (page - 1) * PAGE_SIZE`. */
  function PageFiles(files: seq<Item>, page: int): (r: seq<Item>)
    ensures |r| <= PageSize
    ensures page >= 1 ==>
      r == files[Min((page - 1) * PageSize, |files|)..Min(page * PageSize, |files|)]
  {
    var start := (page - 1) * PageSize;
    Slice(files, start, start + PageSize)
  }

  /** `Math.ceil(files.length / PAGE_SIZE)`. The source writes
      `文件.length`; the model uses the intended `files.length`. */
  function TotalPages(n: nat): (t: nat)
    ensures t * PageSize >= n
    ensures t > 0 ==> (t - 1) * PageSize < n
  {
    (n + PageSize - 1) / PageSize
  }

  /** The files of pages `p`, `p + 1`, ..., `total`, in page order. */
  function PagesFrom(files: seq<Item>, p: nat, total: nat): seq<Item>
    requires p >= 1
    decreases total + 1 - p
  {
    if p > total then [] else PageFiles(files, p) + PagesFrom(files, p + 1, total)
  }

  /** Pages `p` to the last one hold exactly the files from page `p`'s
      first position on. */
  lemma {:induction false} PagesFromSuffix(files: seq<Item>, p: nat)
    requires 1 <= p <= TotalPages(|files|) + 1
    ensures PagesFrom(files, p, TotalPages(|files|)) == files[Min((p - 1) * PageSize, |files|)..]
    decreases TotalPages(|files|) + 1 - p
  {
    var t := TotalPages(|files|);
    if p <= t {
      PagesFromSuffix(files, p + 1);
      assert (p - 1) * PageSize <= (t - 1) * PageSize;
    }
  }

  /** Pagination is complete: pages 1 to `totalPages`, concatenated, are
      `files` exactly, each file once and in order. */
  lemma PagesCoverFiles(files: seq<Item>)
    ensures PagesFrom(files, 1, TotalPages(|files|)) == files
  {
    PagesFromSuffix(files, 1);
  }

  /** Every page from 1 to `totalPages` holds at least one file; pages
      beyond it are empty. */
  lemma PageOccupancy(files: seq<Item>, page: int)
    requires page >= 1
    ensures page <= TotalPages(|files|) ==> |PageFiles(files, page)| > 0
    ensures page > TotalPages(|files|) ==> PageFiles(files, page) == []
  {
    var t := TotalPages(|files|);
    if page <= t {
      assert (page - 1) * PageSize <= (t - 1) * PageSize;
    } else {
      assert (page - 1) * PageSize >= t * PageSize;
    }
  }

  /** A page button: its number, and whether it is the current page. */
  datatype Button = Button(number: int, disabled: bool)

  /** The pager loop in `render`: buttons 1 to `totalPages` only when there
      is more than one page, the one equal to `page` disabled. */
  method PageButtons(totalPages: nat, page: int) returns (buttons: seq<Button>)
    ensures totalPages <= 1 ==> buttons == []
    ensures totalPages > 1 ==> |buttons| == totalPages
    ensures totalPages > 1 ==> forall k :: 0 <= k < |buttons| ==>
      buttons[k].number == k + 1 && (buttons[k].disabled <==> k + 1 == page)
  {
    buttons := [];
    if totalPages > 1 {
      for i := 1 to totalPages + 1
        invariant |buttons| == i - 1
        invariant forall k :: 0 <= k < |buttons| ==>
          buttons[k].number == k + 1 && (buttons[k].disabled <==> k + 1 == page)
      {
        buttons := buttons + [Button(i, i == page)];
      }
    }
  }

  /** What `render` puts on screen, without the markup: the folder cards,
      the files of the current page and the pager buttons. */
  datatype View = View(dirs: seq<Item>, pageFiles: seq<Item>, buttons: seq<Button>)

  /** `currentList = findNode(tree, currentPath)` followed by `render()`. */
  method Render(tree: seq<Item>, currentPath: string, page: int) returns (view: View)
    ensures view.dirs == Dirs(Navigate(tree, currentPath))
    ensures view.pageFiles == PageFiles(Files(Navigate(tree, currentPath)), page)
    ensures |view.pageFiles| <= PageSize
    ensures var t := TotalPages(|Files(Navigate(tree, currentPath))|);
      |view.buttons| == (if t > 1 then t else 0)
    ensures forall k :: 0 <= k < |view.buttons| ==>
      view.buttons[k].number == k + 1 && (view.buttons[k].disabled <==> k + 1 == page)
  {
    var currentList := FindNode(tree, currentPath);
    var dirs := Dirs(currentList);
    var files := Files(currentList);
    var start := (page - 1) * PageSize;
    var pageFiles := Slice(files, start, start + PageSize);
    var totalPages := TotalPages(|files|);
    var buttons := PageButtons(totalPages, page);
    view := View(dirs, pageFiles, buttons);
  }
}
