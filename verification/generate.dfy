/** generate.js: the flat image list. `walk` lists a directory, skips hidden
    names everywhere and the ignore sets at the root only, descends into
    subdirectories and keeps files whose name has an image extension; the
    list is then sorted by path. */
module Generate {
  import opened Paths
  import opened FsTree

  /** One record of data.json. */
  datatype Image = Image(path: string, name: string, size: nat)

  /** Skipped when met in the root listing, whatever their type. */
  const IgnoreDirs: set<string> := {".git", ".github", "node_modules", "image"}
  const IgnoreFiles: set<string> :=
    {"index.html", "data.json", "generate.js", "README.md", "package.json", "package-lock.json"}

  /** `/\.(png|jpe?g|gif|webp|svg)$/i`. */
  predicate IsImageName(name: string)
  {
    EndsWithIgnoringCase(name, ".png") || EndsWithIgnoringCase(name, ".jpg")
    || EndsWithIgnoringCase(name, ".jpeg") || EndsWithIgnoringCase(name, ".gif")
    || EndsWithIgnoringCase(name, ".webp") || EndsWithIgnoringCase(name, ".svg")
  }

  /** The three `continue` tests at the head of the loop body. */
  predicate Excluded(name: string, base: string)
  {
    StartsWithDot(name) || (base == "" && name in IgnoreDirs) || (base == "" && name in IgnoreFiles)
  }

  /** `path.join(base, name).replace(/\\/g, "/")`. */
  function RelPath(base: string, name: string): string
  {
    ToSlash(Join(base, name))
  }

  /** What `walk(dir, base)` returns for a directory whose listing is
      `listing`, as the loop builds it: the result for all entries but the
      last, then what the last one adds. */
  function Images(listing: seq<Node>, base: string): seq<Image>
    decreases listing
  {
    if listing == [] then []
    else
      var e := listing[|listing| - 1];
      Images(listing[..|listing| - 1], base) +
        if Excluded(e.name, base) then []
        else if e.Dir? then Images(e.children, RelPath(base, e.name))
        else if IsImageName(e.name) then [Image(RelPath(base, e.name), e.name, e.size)]
        else []
  }

  /** `walk(dir, base)`: `result` grows by `push` for an image file and by
      `concat` of the recursive walk for a subdirectory. */
  method Walk(listing: seq<Node>, base: string) returns (result: seq<Image>)
    ensures result == Images(listing, base)
    decreases listing
  {
    result := [];
    for i := 0 to |listing|
      invariant result == Images(listing[..i], base)
    {
      assert listing[..i + 1][..i] == listing[..i];
      var e := listing[i];
      if StartsWithDot(e.name) { continue; }
      if base == "" && e.name in IgnoreDirs { continue; }
      if base == "" && e.name in IgnoreFiles { continue; }
      var relPath := ToSlash(Join(base, e.name));
      match e {
        case Dir(_, children) =>
          var sub := Walk(children, relPath);
          result := result + sub;
        case File(name, size) =>
          if IsImageName(name) {
            result := result + [Image(relPath, name, size)];
          }
      }
    }
    assert listing[..|listing|] == listing;
  }

  /** Listing order is kept: the walk of two consecutive runs of a listing
      is the walk of the first followed by the walk of the second. */
  lemma {:induction false} ImagesAppend(a: seq<Node>, b: seq<Node>, base: string)
    ensures Images(a + b, base) == Images(a, base) + Images(b, base)
    decreases |b|
  {
    if b == [] {
      assert a + b == a;
    } else {
      var b' := b[..|b| - 1];
      assert (a + b)[..|a + b| - 1] == a + b';
      assert (a + b)[|a + b| - 1] == b[|b| - 1];
      ImagesAppend(a, b', base);
    }
  }

  /** The walk of a single entry. */
  lemma ImagesOfEntry(e: Node, base: string)
    ensures Images([e], base) ==
      if Excluded(e.name, base) then []
      else if e.Dir? then Images(e.children, RelPath(base, e.name))
      else if IsImageName(e.name) then [Image(RelPath(base, e.name), e.name, e.size)]
      else []
  {
    assert [e][..0] == [];
  }

  /** A subdirectory's results are spliced in at its position; the ignore
      sets remove it only in the root listing (`base == ""`), so a nested
      `node_modules` or `image` directory is still descended into. */
  lemma SubdirectorySpliced(listing: seq<Node>, base: string, i: nat)
    requires i < |listing| && listing[i].Dir? && !StartsWithDot(listing[i].name)
    ensures Images(listing, base) ==
      Images(listing[..i], base)
      + (if base == "" && (listing[i].name in IgnoreDirs || listing[i].name in IgnoreFiles) then []
         else Images(listing[i].children, RelPath(base, listing[i].name)))
      + Images(listing[i + 1..], base)
  {
    assert listing == listing[..i] + [listing[i]] + listing[i + 1..];
    ImagesAppend(listing[..i] + [listing[i]], listing[i + 1..], base);
    ImagesAppend(listing[..i], [listing[i]], base);
    ImagesOfEntry(listing[i], base);
  }

  /** Every emitted name has one of the image extensions, in any ASCII case. */
  lemma {:induction false} ImageNamesOnly(listing: seq<Node>, base: string)
    ensures forall img :: img in Images(listing, base) ==> IsImageName(img.name)
    decreases listing
  {
    if listing != [] {
      ImageNamesOnly(listing[..|listing| - 1], base);
      var e := listing[|listing| - 1];
      if e.Dir? && !Excluded(e.name, base) {
        ImageNamesOnly(e.children, RelPath(base, e.name));
      }
    }
  }

  /** `path` lies below directory `base`: no `\`, the segments of `base`
      come first, every further segment is visible (no leading `.`), and
      the last one is `name`. */
  predicate Beneath(path: string, name: string, base: string)
  {
    var segs := Split(path);
    var top := Segments(base);
    && '\\' !in path
    && |top| < |segs|
    && segs[..|top|] == top
    && segs[|segs| - 1] == name
    && forall k :: |top| <= k < |segs| ==> !StartsWithDot(segs[k])
  }

  /** An entry's path lies below its parent's path, with the entry's name as
      its last segment. */
  lemma EntryBeneath(base: string, name: string)
    requires NameOk(name) && !StartsWithDot(name) && '\\' !in base
    ensures RelPath(base, name) == Join(base, name)
    ensures Segments(Join(base, name)) == Segments(base) + [name]
    ensures Beneath(Join(base, name), name, base)
  {
    assert '\\' !in Join(base, name);
    ToSlashIdentity(Join(base, name));
    JoinSegments(base, name);
  }

  /** Nesting: a path below a subdirectory lies below its parent too. */
  lemma BeneathNested(path: string, name: string, base: string, dir: string)
    requires NameOk(dir) && !StartsWithDot(dir) && '\\' !in base
    requires Beneath(path, name, Join(base, dir))
    ensures Beneath(path, name, base)
  {
    EntryBeneath(base, dir);
    var segs := Split(path);
    var top := Segments(base);
    assert segs[..|top| + 1] == top + [dir];
    assert segs[..|top|] == (top + [dir])[..|top|] == top;
  }

  /** Path shape: every emitted `path` lies below `base` (so at the root,
      no segment starts with `.`, since the hidden test runs at every
      depth), holds no `\`, and ends with the entry's `name`. */
  lemma {:induction false} ImagePaths(listing: seq<Node>, base: string)
    requires NamesOk(listing) && '\\' !in base
    ensures forall img :: img in Images(listing, base) ==> Beneath(img.path, img.name, base)
    decreases listing
  {
    if listing != [] {
      var n := |listing| - 1;
      NamesOkParts(listing, n);
      ImagePaths(listing[..n], base);
      var e := listing[n];
      if !Excluded(e.name, base) {
        EntryBeneath(base, e.name);
        if e.Dir? {
          var rel := Join(base, e.name);
          ImagePaths(e.children, rel);
          forall img | img in Images(e.children, rel) ensures Beneath(img.path, img.name, base) {
            BeneathNested(img.path, img.name, base, e.name);
          }
        }
      }
    }
  }

  /** For the whole catalog: no path segment is hidden, no path holds `\`,
      and each name is its path's last segment. */
  lemma CatalogPaths(root: seq<Node>)
    requires NamesOk(root)
    ensures forall img :: img in Images(root, "") ==>
      && '\\' !in img.path
      && Split(img.path)[|Split(img.path)| - 1] == img.name
      && forall k :: 0 <= k < |Split(img.path)| ==> !StartsWithDot(Split(img.path)[k])
  {
    ImagePaths(root, "");
  }

  /** A total preorder on paths: the abstract stand-in for
      `a.localeCompare(b, "zh-CN") <= 0`. */
  ghost predicate TotalPreorder(leq: (string, string) -> bool)
  {
    && (forall x, y :: leq(x, y) || leq(y, x))
    && (forall x, y, z :: leq(x, y) && leq(y, z) ==> leq(x, z))
  }

  /** Non-decreasing by path under `leq`. */
  ghost predicate SortedByPath(s: seq<Image>, leq: (string, string) -> bool)
  {
    forall i, j :: 0 <= i < j < |s| ==> leq(s[i].path, s[j].path)
  }

  /** `images.sort((a, b) => a.path.localeCompare(b.path, "zh-CN"))`, in
      place. Written as an insertion sort that swaps only strict
      inversions. */
  method SortByPath(a: array<Image>, leq: (string, string) -> bool)
    requires TotalPreorder(leq)
    modifies a
    ensures SortedByPath(a[..], leq)
    ensures multiset(a[..]) == multiset(old(a[..]))
  {
    if a.Length == 0 { return; }
    for i := 1 to a.Length
      invariant forall k, l :: 0 <= k < l < i ==> leq(a[k].path, a[l].path)
      invariant multiset(a[..]) == multiset(old(a[..]))
    {
      InsertIntoSorted(a, i, leq);
    }
  }

  /** While `s[j]` moves left through `s[..i + 1]`: the other elements are
      in order, and `s[j]` precedes everything after it. */
  ghost predicate Inserting(s: seq<Image>, j: int, i: int, leq: (string, string) -> bool)
    requires 0 <= j <= i < |s|
  {
    && (forall k, l :: 0 <= k < l <= i && k != j && l != j ==> leq(s[k].path, s[l].path))
    && (forall l :: j < l <= i ==> leq(s[j].path, s[l].path))
  }

  /** Swapping a strict inversion moves the inserted element one place left. */
  lemma InsertStep(s: seq<Image>, j: int, i: int, leq: (string, string) -> bool)
    requires TotalPreorder(leq) && 0 < j <= i < |s|
    requires Inserting(s, j, i, leq) && !leq(s[j - 1].path, s[j].path)
    ensures Inserting(s[j - 1 := s[j]][j := s[j - 1]], j - 1, i, leq)
  {
    assert leq(s[j].path, s[j - 1].path);
  }

  /** The inserted element has stopped: `s[..i + 1]` is sorted. */
  lemma InsertDone(s: seq<Image>, j: int, i: int, leq: (string, string) -> bool)
    requires TotalPreorder(leq) && 0 <= j <= i < |s|
    requires Inserting(s, j, i, leq) && (j == 0 || leq(s[j - 1].path, s[j].path))
    ensures forall k, l :: 0 <= k < l <= i ==> leq(s[k].path, s[l].path)
  {
    forall k, l | 0 <= k < l <= i ensures leq(s[k].path, s[l].path) {
      if l == j && k < j - 1 {
        assert leq(s[k].path, s[j - 1].path);
      }
    }
  }

  /** One step of the sort: `a[i]` moves left past every element it must
      precede, so that `a[..i + 1]` is sorted and holds the same elements as
      before; the rest of the array is untouched. */
  method InsertIntoSorted(a: array<Image>, i: int, leq: (string, string) -> bool)
    requires TotalPreorder(leq)
    requires 0 < i < a.Length
    requires forall k, l :: 0 <= k < l < i ==> leq(a[k].path, a[l].path)
    modifies a
    ensures forall k, l :: 0 <= k < l <= i ==> leq(a[k].path, a[l].path)
    ensures multiset(a[..i + 1]) == multiset(old(a[..i + 1]))
    ensures a[i + 1..] == old(a[i + 1..])
    ensures multiset(a[..]) == multiset(old(a[..]))
  {
    var j := i;
    while j > 0 && !leq(a[j - 1].path, a[j].path)
      invariant 0 <= j <= i
      invariant multiset(a[..]) == multiset(old(a[..]))
      invariant multiset(a[..i + 1]) == multiset(old(a[..i + 1]))
      invariant a[i + 1..] == old(a[i + 1..])
      invariant Inserting(a[..], j, i, leq)
    {
      ghost var s := a[..];
      InsertStep(s, j, i, leq);
      SwapWithPrevious(a, j, i + 1);
      assert a[..] == s[j - 1 := s[j]][j := s[j - 1]];
      j := j - 1;
    }
    InsertDone(a[..], j, i, leq);
  }

  /** Exchanges `a[j - 1]` and `a[j]`, which both lie in `a[..hi]`. */
  method SwapWithPrevious(a: array<Image>, j: int, hi: int)
    requires 0 < j < hi <= a.Length
    modifies a
    ensures a[j - 1] == old(a[j]) && a[j] == old(a[j - 1])
    ensures forall k :: 0 <= k < a.Length && k != j - 1 && k != j ==> a[k] == old(a[k])
    ensures multiset(a[..hi]) == multiset(old(a[..hi]))
    ensures a[hi..] == old(a[hi..])
    ensures multiset(a[..]) == multiset(old(a[..]))
  {
    ghost var s := a[..hi];
    a[j - 1], a[j] := a[j], a[j - 1];
    assert a[..hi] == s[j - 1 := s[j]][j := s[j - 1]];
  }

  /** The whole script: walk from the root, then sort. The result is a
      permutation of the walk and is non-decreasing by path. */
  method Generate(root: seq<Node>, leq: (string, string) -> bool) returns (images: seq<Image>)
    requires TotalPreorder(leq)
    ensures multiset(images) == multiset(Images(root, ""))
    ensures SortedByPath(images, leq)
  {
    var found := Walk(root, "");
    var a := new Image[|found|](i requires 0 <= i < |found| => found[i]);
    assert a[..] == found;
    SortByPath(a, leq);
    images := a[..];
  }
}
