/** scripts/scan-images.js: the nested image tree. `walk` skips hidden and
    build-directory names at every depth, turns every remaining
    subdirectory into a `dir` node holding the walk of that directory, and
    keeps files whose lower-cased extension is an image extension. */
module ScanImages {
  import opened Paths
  import FsTree
  import Generate

  /** One node of public/index.json. */
  datatype Item =
    | Dir(name: string, path: string, children: seq<Item>)
    | File(name: string, url: string)

  /** `IMAGE_EXT`; `.svg` is not among them. */
  const ImageExts: seq<string> := [".png", ".jpg", ".jpeg", ".webp", ".gif"]

  /** Skipped at every depth, whether file or directory. */
  const SkippedNames: set<string> := {"node_modules", "dist", "scripts", "src"}

  /** The five `continue` tests at the head of the loop body. */
  predicate Skipped(name: string)
  {
    StartsWithDot(name) || name in SkippedNames
  }

  /** `IMAGE_EXT.includes(path.extname(name).toLowerCase())`. */
  predicate HasImageExt(name: string)
  {
    Lower(Extname(name)) in ImageExts
  }

  /** The `dir` path or `file` url of an entry: `"/" + rel.replace(/\\/g, "/")`
      where `rel = path.join(base, name)`. The source writes the call as
      `rel.替换`; the model uses the intended `replace`. */
  function Url(base: string, name: string): string
  {
    "/" + ToSlash(Join(base, name))
  }

  /** What `walk(dir, base)` returns for a directory whose listing is
      `listing`, as the loop builds it: the result for all entries but the
      last, then the node the last one adds, if any. `base` is the raw
      `rel` of the directory, passed on without the replacement. */
  function Items(listing: seq<FsTree.Node>, base: string): seq<Item>
    decreases listing
  {
    if listing == [] then []
    else
      var e := listing[|listing| - 1];
      Items(listing[..|listing| - 1], base) +
        if Skipped(e.name) then []
        else if e.Dir? then [Dir(e.name, Url(base, e.name), Items(e.children, Join(base, e.name)))]
        else if HasImageExt(e.name) then [File(e.name, Url(base, e.name))]
        else []
  }

  /** `walk(dir, base)`: the loop pushes one node per kept entry. */
  method Walk(listing: seq<FsTree.Node>, base: string) returns (files: seq<Item>)
    ensures files == Items(listing, base)
    decreases listing
  {
    files := [];
    for i := 0 to |listing|
      invariant files == Items(listing[..i], base)
    {
      assert listing[..i + 1][..i] == listing[..i];
      var e := listing[i];
      assert Skipped(e.name) <==> (StartsWithDot(e.name) || e.name == "node_modules"
        || e.name == "dist" || e.name == "scripts" || e.name == "src");
      if StartsWithDot(e.name) { continue; }
      if e.name == "node_modules" { continue; }
      if e.name == "dist" { continue; }
      if e.name == "scripts" { continue; }
      if e.name == "src" { continue; }
      var rel := Join(base, e.name);
      if e.Dir? {
        var children := Walk(e.children, rel);
        files := files + [Dir(e.name, "/" + ToSlash(rel), children)];
      } else if Lower(Extname(e.name)) in ImageExts {
        files := files + [File(e.name, "/" + ToSlash(rel))];
      }
    }
    assert listing[..|listing|] == listing;
  }

  /** The entries that yield a node: not skipped, and a directory (even an
      empty one) or a file with an image extension. */
  predicate Kept(e: FsTree.Node)
  {
    !Skipped(e.name) && (e.Dir? || HasImageExt(e.name))
  }

  /** The kept entries of a listing, in listing order (`filter`). */
  function KeptEntries(listing: seq<FsTree.Node>): (r: seq<FsTree.Node>)
    ensures |r| <= |listing|
    ensures forall e :: e in r ==> e in listing && Kept(e)
  {
    if listing == [] then []
    else
      KeptEntries(listing[..|listing| - 1])
        + if Kept(listing[|listing| - 1]) then [listing[|listing| - 1]] else []
  }

  /** The node a kept entry becomes. */
  function NodeOf(e: FsTree.Node, base: string): Item
  {
    if e.Dir? then Dir(e.name, Url(base, e.name), Items(e.children, Join(base, e.name)))
    else File(e.name, Url(base, e.name))
  }

  /** The walk is `filter` then `map`: the k-th node is made from the k-th
      kept entry, so nodes come in listing order, each non-skipped
      subdirectory gives a `dir` node whose children are its own walk, and
      a file gives a node exactly when its extension is an image one. */
  lemma {:induction false} ItemsAreKeptEntries(listing: seq<FsTree.Node>, base: string)
    ensures |Items(listing, base)| == |KeptEntries(listing)|
    ensures forall k :: 0 <= k < |KeptEntries(listing)| ==>
      Items(listing, base)[k] == NodeOf(KeptEntries(listing)[k], base)
    decreases listing
  {
    if listing != [] {
      var n := |listing| - 1;
      var prefix, e := listing[..n], listing[n];
      ItemsAreKeptEntries(prefix, base);
      if Kept(e) {
        assert KeptEntries(listing) == KeptEntries(prefix) + [e];
        assert Items(listing, base) == Items(prefix, base) + [NodeOf(e, base)];
      } else {
        assert KeptEntries(listing) == KeptEntries(prefix);
        assert Items(listing, base) == Items(prefix, base);
      }
    }
  }

  /** Adding one entry at the end adds that entry's nodes at the end. */
  lemma ItemsSnoc(s: seq<FsTree.Node>, e: FsTree.Node, base: string)
    ensures Items(s + [e], base) == Items(s, base) + Items([e], base)
  {
    assert (s + [e])[..|s|] == s;
    assert [e][..0] == [];
  }

  /** A map over sequences that sends `[]` to `[]` and distributes over
      adding one element distributes over every concatenation. */
  lemma {:induction false} SnocAppend<T, U>(f: seq<T> -> seq<U>, a: seq<T>, b: seq<T>)
    requires f([]) == []
    requires forall s, e :: f(s + [e]) == f(s) + f([e])
    ensures f(a + b) == f(a) + f(b)
    decreases |b|
  {
    if b == [] {
      assert a + b == a;
    } else {
      var b', e := b[..|b| - 1], b[|b| - 1];
      assert a + b == (a + b') + [e] && b == b' + [e];
      SnocAppend(f, a, b');
      assert f(a + b) == f(a + b') + f([e]);
      assert f(b) == f(b') + f([e]);
    }
  }

  /** Listing order is kept across runs of the listing. */
  lemma ItemsAppend(a: seq<FsTree.Node>, b: seq<FsTree.Node>, base: string)
    ensures Items(a + b, base) == Items(a, base) + Items(b, base)
  {
    forall s, e ensures Items(s + [e], base) == Items(s, base) + Items([e], base) {
      ItemsSnoc(s, e, base);
    }
    SnocAppend(x => Items(x, base), a, b);
  }

  /** No node at any depth has a skipped name. */
  predicate NoneSkipped(items: seq<Item>)
  {
    forall k :: 0 <= k < |items| ==>
      !Skipped(items[k].name) && (items[k].Dir? ==> NoneSkipped(items[k].children))
  }

  /** The skip list applies at every depth. */
  lemma {:induction false} SkippedAtEveryDepth(listing: seq<FsTree.Node>, base: string)
    ensures NoneSkipped(Items(listing, base))
    decreases listing
  {
    if listing != [] {
      var e := listing[|listing| - 1];
      SkippedAtEveryDepth(listing[..|listing| - 1], base);
      if e.Dir? && !Skipped(e.name) {
        SkippedAtEveryDepth(e.children, Join(base, e.name));
      }
    }
  }

  /** Every node at any depth carries `"/"` and its `/`-separated relative
      path: a `dir` path, a `file` url. */
  predicate Located(items: seq<Item>, base: string)
  {
    forall k :: 0 <= k < |items| ==>
      match items[k]
      case Dir(name, path, children) =>
        path == Url(base, name) && Located(children, Join(base, name))
      case File(name, url) => url == Url(base, name)
  }

  /** Paths and urls at every depth are `"/"` followed by the relative path,
      with no `\`. */
  lemma {:induction false} ItemsLocated(listing: seq<FsTree.Node>, base: string)
    ensures Located(Items(listing, base), base)
    ensures forall k :: 0 <= k < |Items(listing, base)| ==>
      var u := if Items(listing, base)[k].Dir? then Items(listing, base)[k].path else Items(listing, base)[k].url;
      u[0] == '/' && '\\' !in u
    decreases listing
  {
    if listing != [] {
      var e := listing[|listing| - 1];
      ItemsLocated(listing[..|listing| - 1], base);
      if e.Dir? && !Skipped(e.name) {
        ItemsLocated(e.children, Join(base, e.name));
      }
    }
  }

  /** An extension found by `path.extname` is a suffix of the name. */
  lemma SuffixOfExtname(name: string)
    requires Extname(name) != ""
    ensures EndsWithIgnoringCase(name, Lower(Extname(name)))
  {
  }

  /** A lower-cased suffix `.xyz` with no other dot is what `path.extname`
      finds in a name that does not start with a dot. */
  lemma ExtnameOfSuffix(name: string, ext: string)
    requires !StartsWithDot(name) && |ext| < |name|
    requires |ext| > 0 && ext[0] == '.' && '.' !in ext[1..]
    requires EndsWithIgnoringCase(name, ext)
    ensures Extname(name) == name[|name| - |ext|..]
  {
    var n, m := |name|, |ext|;
    assert name[n - m] == '.' by {
      assert LowerChar(name[n - m]) == Lower(name[n - m..])[0] == '.';
    }
    forall i | n - m < i < n ensures name[i] != '.' {
      assert LowerChar(name[i]) == Lower(name[n - m..])[i - (n - m)] == ext[i - (n - m)];
      assert ext[i - (n - m)] == ext[1..][i - (n - m) - 1];
    }
    assert LastDot(name) == n - m by {
      LastDotAt(name, n - m);
    }
  }

  /** The last dot is at `d` when `name[d]` is a dot and none follows. */
  lemma {:induction false} LastDotAt(name: string, d: int)
    requires 0 <= d < |name| && name[d] == '.'
    requires forall i :: d < i < |name| ==> name[i] != '.'
    ensures LastDot(name) == d
    decreases |name|
  {
    if d < |name| - 1 {
      LastDotAt(name[..|name| - 1], d);
    }
  }

  /** A name ending in `ext` (ignoring case) ends in every shorter tail of
      `ext` too. */
  lemma EndsWithTail(name: string, ext: string, k: nat)
    requires EndsWithIgnoringCase(name, ext) && k <= |ext|
    ensures Lower(name[|name| - k..]) == ext[|ext| - k..]
  {
    var n, m := |name|, |ext|;
    var low, tail := Lower(name[n - k..]), ext[m - k..];
    forall i | 0 <= i < k ensures low[i] == tail[i] {
      assert low[i] == LowerChar(name[n - k + i]) == Lower(name[n - m..])[m - k + i];
    }
  }

  /** A name ending in one of the five extensions does not end in `.svg`. */
  lemma ImageExtNotSvg(name: string, ext: string)
    requires ext in ImageExts && EndsWithIgnoringCase(name, ext)
    ensures !EndsWithIgnoringCase(name, ".svg")
  {
    assert |ext| >= 4 && ext[|ext| - 4..] != ".svg";
    EndsWithTail(name, ext, 4);
  }

  /** A name ending in one of the five extensions passes `IMG_EXT`. */
  lemma ImageExtIsImageName(name: string, ext: string)
    requires ext in ImageExts && EndsWithIgnoringCase(name, ext)
    ensures Generate.IsImageName(name)
  {
    if ext == ".png" {
    } else if ext == ".jpg" {
    } else if ext == ".jpeg" {
    } else if ext == ".webp" {
    } else {
      assert ext == ".gif";
    }
  }

  /** A name that scan-images.js keeps as an image generate.js keeps too,
      and it does not end in `.svg`. */
  lemma ScanImageIsGenerateImage(name: string)
    requires HasImageExt(name)
    ensures Generate.IsImageName(name) && !EndsWithIgnoringCase(name, ".svg")
  {
    var ext := Lower(Extname(name));
    SuffixOfExtname(name);
    ImageExtIsImageName(name, ext);
    ImageExtNotSvg(name, ext);
  }

  /** A visible name with one of the five extensions has it as its
      `path.extname`. */
  lemma AcceptedSuffix(name: string, ext: string)
    requires !StartsWithDot(name) && ext in ImageExts && EndsWithIgnoringCase(name, ext)
    ensures HasImageExt(name)
  {
    assert ext[0] == '.' && '.' !in ext[1..];
    assert name[|name| - |ext|] == '.' by {
      assert LowerChar(name[|name| - |ext|]) == Lower(name[|name| - |ext|..])[0] == '.';
    }
    ExtnameOfSuffix(name, ext);
  }

  /** The flat and the nested scanner agree on which visible file names are
      images, except that generate.js also accepts `.svg`. */
  lemma ImageTestsAgree(name: string)
    requires !StartsWithDot(name)
    ensures HasImageExt(name) <==>
      Generate.IsImageName(name) && !EndsWithIgnoringCase(name, ".svg")
  {
    if HasImageExt(name) {
      ScanImageIsGenerateImage(name);
    }
    if Generate.IsImageName(name) && !EndsWithIgnoringCase(name, ".svg") {
      if EndsWithIgnoringCase(name, ".png") { AcceptedSuffix(name, ".png"); }
      else if EndsWithIgnoringCase(name, ".jpg") { AcceptedSuffix(name, ".jpg"); }
      else if EndsWithIgnoringCase(name, ".jpeg") { AcceptedSuffix(name, ".jpeg"); }
      else if EndsWithIgnoringCase(name, ".gif") { AcceptedSuffix(name, ".gif"); }
      else { AcceptedSuffix(name, ".webp"); }
    }
  }
}
