# picx-images-hosting catalog pipeline, in Dafny

This project models the catalog pipeline of picx-images-hosting, a static
image-hosting site. A directory tree of images is walked and filtered by name
and extension. `generate.js` writes the result as a flat, path-sorted image
list (`data.json`), and `scripts/scan-images.js` writes it as a nested
folder/file tree (`public/index.json`). `scripts/gen-tree.js` builds a
nested tree too, with `path` on every node and `url` on files; it writes
nothing itself. In the browser, `site/main.js` fetches `/file-tree.json`,
whose nodes have that gen-tree.js shape, and resolves the `path` query
value in that tree. It then builds the breadcrumb trail, splits the current
folder into folder cards and image files, and pages the files 24 at a time.

Modules, one per source file plus two shared ones:

- `Paths` (`paths.dfy`) holds the string operations the scripts rely on:
  `path.join` for one listing name, the `\` → `/` replacement,
  `split('/')`, ASCII `toLowerCase` and `path.extname`.
- `FsTree` (`fs_tree.dfy`) is the directory tree. `fs.readdirSync` and
  `fs.statSync` are replaced by a value: a `Node` is a file with a size or a
  directory with its listing, children in listing order.
- `Generate` (`generate.dfy`) models `generate.js`. `Walk` is a method whose
  loop builds `result` the way the script does, proved equal to the
  function `Images`. `SortByPath` sorts an `array` in place.
- `ScanImages` (`scan_images.dfy`) models `scripts/scan-images.js`. `Walk`
  is again a loop method, proved equal to `Items`.
- `GenTree` (`gen_tree.dfy`) models `scripts/gen-tree.js`. Its `walk` is
  pure (`map` then `filter(Boolean)`), so it is a function.
- `Navigator` (`navigator.dfy`) models `site/main.js`. `findNode` and the
  breadcrumb loop are loop methods. The folder/file partition, the page slice
  and `totalPages` are functions.

The source has a few defects that stop it from running. The model uses the
code that was evidently meant, and a comment at each place says so:

- `site/main.js:11` writes `.键，然后(`; the model uses `.then(`, and the
  fetched tree becomes an input.
- `site/main.js:86` writes `文件.length`; the model uses `files.length`.
- `scripts/scan-images.js:26` and `:33` write `rel.替换`; the model uses
  `replace`.
- `scripts/gen-tree.js` uses `fs`, `path` and `isImage` without defining
  them. The listing is an input, `path.posix.join` is `Paths.Join`, and
  `isImage` is a predicate parameter.

Facts about the code that the model keeps as they are:

- `IGNORE_DIRS` / `IGNORE_FILES` apply only in the root listing.
- The walks are recursive.
- Only `generate.js` sorts.
- A page number is never clamped.

## Model

| member | source | states |
|---|---|---|
| Paths.ToSlash | generate.js:44 | the `\` → `/` replacement keeps the length, turns every `\` into `/`, leaves no `\` and changes no other character |
| Paths.Split | site/main.js:15 | `split('/')` yields at least one part and no part holds `/` |
| Paths.JoinSplit | site/main.js:15 | round trip: joining the parts of `split('/')` with `/` gives the input back |
| Paths.SplitJoinSlash | site/main.js:15 | round trip the other way: splitting parts joined with `/` gives those parts back |
| Paths.SplitConcat | site/main.js:15 | splitting `x + "/" + y` is splitting `x` followed by splitting `y` |
| Paths.JoinSegments | scripts/gen-tree.js:8 | the segments of `path.join(base, name)` are the segments of `base` followed by `name` |
| Paths.ExtnameShape | scripts/scan-images.js:29 | `path.extname` is empty exactly when the name is `..` or has no `.` after its first character; otherwise it is a `.` with no further dot and a proper suffix of the name |
| Generate.Walk | generate.js:34-59 | the loop (hidden skip, root-only ignore sets, `push` of image files, `concat` of subdirectory walks) computes exactly `Images(listing, base)` |
| Generate.ImagesAppend | generate.js:37 | the walk keeps listing order: the walk of `a + b` is the walk of `a` followed by the walk of `b` |
| Generate.SubdirectorySpliced | generate.js:40-41 | a visible subdirectory's results are spliced in at its position; the ignore sets drop it only when `base == ""`, so a nested `node_modules` or `image` is still walked |
| Generate.ImageNamesOnly | generate.js:14 | every emitted name ends in `.png`, `.jpg`, `.jpeg`, `.gif`, `.webp` or `.svg`, in any ASCII case |
| Generate.ImagePaths | generate.js:44 | every emitted `path` lies below `base`: no `\`, the segments of `base` first, every further segment visible, `name` last |
| Generate.CatalogPaths | generate.js:38 | over the whole catalog no path segment starts with `.`, no path holds `\`, and each `name` is its path's last segment |
| Generate.SortByPath | generate.js:64 | after the in-place sort the array is non-decreasing by path under the comparator and a permutation of its old contents |
| Generate.InsertIntoSorted | generate.js:64 | one insertion step makes `a[..i + 1]` sorted, holding the same elements as before, and leaves `a[i + 1..]` untouched |
| Generate.InsertStep | generate.js:64 | swapping a strict inversion moves the element being inserted one place left and keeps every other pair in order |
| Generate.Generate | generate.js:61-64 | the written list is a permutation of the root walk and is non-decreasing by path |
| ScanImages.Walk | scripts/scan-images.js:8-38 | the loop (five skip tests, a `dir` node per subdirectory, a `file` node per image file) computes exactly `Items(listing, base)` |
| ScanImages.ItemsAreKeptEntries | scripts/scan-images.js:22-34 | node k comes from the k-th kept entry: each non-skipped directory, even an empty one, gives a `dir` node whose children are its own walk, and a file gives a node exactly when its extension is an image one |
| ScanImages.ItemsAppend | scripts/scan-images.js:10-12 | nodes keep listing order, with no sorting |
| ScanImages.SkippedAtEveryDepth | scripts/scan-images.js:13-17 | no node at any depth is named `node_modules`, `dist`, `scripts` or `src`, or starts with `.` |
| ScanImages.ItemsLocated | scripts/scan-images.js:26-33 | every `dir` path and `file` url at every depth is `"/"` followed by the relative path, begins with `/` and holds no `\` |
| ScanImages.ScanImageIsGenerateImage | scripts/scan-images.js:29 | a name accepted by the lower-cased `extname` test is accepted by `IMG_EXT` too and does not end in `.svg` |
| ScanImages.ImageTestsAgree | scripts/scan-images.js:4 | for a visible name, the `extname` test holds exactly when the `IMG_EXT` test of generate.js holds and the name does not end in `.svg` |
| GenTree.Walk | scripts/gen-tree.js:6-25 | the walk gives at most one node per listing entry |
| GenTree.WalkIsKeptEntries | scripts/gen-tree.js:10-25 | the walk is the order-preserving sub-sequence that `filter(Boolean)` keeps: every directory gives a `dir` node whose children are its walk, and a file gives a node exactly when `isImage` holds |
| GenTree.WalkLocated | scripts/gen-tree.js:8-22 | every node's `path` is `base` joined with its `name`, a `file` url is `'/' + path`, and children are located below their parent's `path` |
| GenTree.WalkSegments | scripts/gen-tree.js:8-15 | `name` is the last segment of `path`, and a child's `path` extends its parent's by exactly one segment, at every depth |
| Navigator.FindDir | site/main.js:19 | `find` returns the first entry of type `dir` with exactly that name, or none when no such entry exists |
| Navigator.FindNode | site/main.js:13-24 | the loop returns `Navigate(list, path)`; an empty path gives the list unchanged; if the first segment names no folder, the result is `[]` |
| Navigator.DescendAppend | site/main.js:18-22 | following the folder names `a` and then `b` is following `a + b` |
| Navigator.NavigateCompose | site/main.js:15-23 | `findNode(list, p + "/" + q) == findNode(findNode(list, p), q)` for non-empty `p` and `q` |
| Navigator.FindInWalk | site/main.js:19 | in a walk of a listing with distinct names, looking up a folder's name finds that folder's own walk |
| Navigator.OpenFolder | site/main.js:62 | if the view at `currentPath` is the walk of a listing, then navigating to a folder card's path shows the walk of that folder's listing, so each click on a card keeps the view in step with the tree |
| Navigator.CrumbsAt | site/main.js:38-43 | after n turns of the loop there are n crumbs, crumb k linking to the k-th `acc` and showing segment k |
| Navigator.RenderBreadcrumb | site/main.js:28-44 | only the home link for an empty path; otherwise the home link and one crumb per segment, crumb k linking to the k-th `acc` and showing segment k |
| Navigator.AccJoinsPrefix | site/main.js:38-39 | when the first segment is not empty, the k-th `acc` is the first k segments joined with `/` |
| Navigator.LastCrumbIsCurrentPath | site/main.js:35-43 | for a path not starting with `/`, the final `acc` is the current path |
| Navigator.AccAfterEmpty | site/main.js:39 | an empty first segment adds nothing to `acc`: the k-th `acc` is the (k-1)-th `acc` of the remaining segments |
| Navigator.LeadingSlashDropped | site/main.js:35-43 | for every current path `"/" + p` with `p` non-empty and not starting with `/`, the segments are `""` followed by those of `p`, and the last crumb links to `p` |
| Navigator.Dirs | site/main.js:50 | the folder filter holds exactly the `dir` entries of the list |
| Navigator.Files | site/main.js:51 | the file filter holds exactly the `file` entries of the list |
| Navigator.DirsAppend | site/main.js:50 | the folder filter keeps order: filtering a concatenation filters each part |
| Navigator.FilesAppend | site/main.js:51 | the file filter keeps order in the same way |
| Navigator.FiltersPartition | site/main.js:50-51 | together the two filters hold every entry exactly once |
| Navigator.Slice | site/main.js:69 | JS `slice` yields at most `end - start` items, and for `0 <= start <= end` it is the clamped sub-sequence |
| Navigator.PageFiles | site/main.js:68-69 | a page holds at most 24 files, and page `p >= 1` is `files[(p-1)*24 .. min(p*24, |files|)]` |
| Navigator.TotalPages | site/main.js:86 | `totalPages` is the ceiling of `|files| / 24`: enough pages for every file, and no page more |
| Navigator.PagesFromSuffix | site/main.js:68-69 | pages `p` to `totalPages`, concatenated, are the files from page `p`'s first position on |
| Navigator.PagesCoverFiles | site/main.js:68-86 | pages 1 to `totalPages`, concatenated, are `files` exactly |
| Navigator.PageOccupancy | site/main.js:68-86 | every page from 1 to `totalPages` holds a file, and every page after it is empty |
| Navigator.PageButtons | site/main.js:87-99 | buttons only when there is more than one page; then buttons 1 to `totalPages`, with exactly the one equal to `page` disabled |
| Navigator.Render | site/main.js:46-100 | the view shows the folders of the navigated list, that list's files for `page` (at most 24), and the pager buttons for its file count, the current page disabled |

## Left out

- File-system I/O (`readdirSync`, `statSync`, `writeFileSync`, `mkdirSync`) is replaced by the `FsTree.Node` input. `size` is an opaque natural number.
- Whether an entry is a directory comes from the tree. The difference between `stat.isDirectory()`, which follows symbolic links, and the `isDirectory()` of a directory entry, which does not, is not modelled.
- The DOM, `fetch`, the clipboard, `location.href` navigation, the markup strings and `console.log` are UI and I/O. Only the lists and numbers that feed them are modelled.
- Generate.SortByPath: `localeCompare(…, "zh-CN")` is a locale library. The comparator is an abstract total preorder `leq` on paths. The contract states sortedness and permutation but not stability.
- `encodeURIComponent` and `encodeURI` are library calls, and so is the percent-decoding `URLSearchParams.get` does when `site/main.js` reads `path` back. Crumb targets and card paths are kept unencoded: encoding and then decoding is taken as the identity, which holds for well-formed strings.
- `parseInt` of a non-numeric `page` gives `NaN`. `page` is an integer here, so that case is not modelled. Negative and zero pages are modelled through JS `slice`.
- `path.join` normalisation is modelled only for single names a listing can return. A name holding `\` is not normalised on POSIX, but the `\` → `/` replacement of generate.js then splits it into segments.
- Generate.Walk: a directory name holding `\` can leave the replaced base holding `//`, `/./`, `/../` or ending in `/` (`a\` gives `a/`). The nested `path.join` would normalise that base (`a//x.png` becomes `a/x.png`); the model joins it as it is.
- Generate.ImagePaths: holds for listings whose names at every depth are non-empty and hold no `/` or `\` (`FsTree.NamesOk`), for the reasons above.
- Generate.CatalogPaths: holds under the same `FsTree.NamesOk` assumption.
- GenTree.WalkSegments and Navigator.OpenFolder need only names that are non-empty and hold no `/` (`Paths.SegmentOk`, `FsTree.SegmentsOk`), since `path.posix.join` does no `\` replacement.
- Navigator.OpenFolder: assumes the names of one listing are distinct, as in any directory.
- Navigator.LastCrumbIsCurrentPath: the final `acc` equals the current path only when the path does not start with `/`. Leading empty segments are dropped, as `Navigator.LeadingSlashDropped` shows.
- `toLowerCase` is modelled for ASCII letters only and leaves other characters unchanged. No non-ASCII character lower-cases to one of the compared extensions, so the extension tests are unaffected.
- `src/main.js` (an empty `render` stub) and `vite.config.js` (build configuration) hold no catalog logic and are not part of this model.
