/** The directory tree the three walks read. `fs.readdirSync` and
    `fs.statSync` are replaced by this value: a directory's children are its
    listing, in the order the listing returns them. */
module FsTree {
  import opened Paths

  /** One listing entry: a file with its byte size, or a directory with its
      own listing. */
  datatype Node =
    | File(name: string, size: nat)
    | Dir(name: string, children: seq<Node>)

  /** Every name in the listing, at every depth, is one a POSIX listing can
      return and holds no `\`. */
  predicate NamesOk(listing: seq<Node>)
    decreases listing
  {
    forall i :: 0 <= i < |listing| ==>
      NameOk(listing[i].name) && (listing[i].Dir? ==> NamesOk(listing[i].children))
  }

  /** Every name in the listing, at every depth, is one `path.posix.join`
      appends as a single segment (`\` allowed). */
  predicate SegmentsOk(listing: seq<Node>)
    decreases listing
  {
    forall i :: 0 <= i < |listing| ==>
      SegmentOk(listing[i].name) && (listing[i].Dir? ==> SegmentsOk(listing[i].children))
  }

  /** Taking the first entry off a listing keeps its names single segments. */
  lemma SegmentsOkParts(listing: seq<Node>)
    requires SegmentsOk(listing) && |listing| > 0
    ensures SegmentsOk(listing[1..])
    ensures SegmentOk(listing[0].name)
    ensures listing[0].Dir? ==> SegmentsOk(listing[0].children)
  {
    assert forall k :: 1 <= k < |listing| ==> listing[1..][k - 1] == listing[k];
  }

  /** No two entries of one listing share a name, as in any directory. */
  predicate DistinctNames(listing: seq<Node>)
  {
    forall i, j :: 0 <= i < j < |listing| ==> listing[i].name != listing[j].name
  }

  /** Splitting a listing keeps its names well formed. */
  lemma NamesOkParts(listing: seq<Node>, i: nat)
    requires NamesOk(listing) && i < |listing|
    ensures NamesOk(listing[..i]) && NamesOk(listing[i + 1..])
    ensures NameOk(listing[i].name)
    ensures listing[i].Dir? ==> NamesOk(listing[i].children)
  {
    assert forall k :: 0 <= k < i ==> listing[..i][k] == listing[k];
    assert forall k :: i + 1 <= k < |listing| ==> listing[i + 1..][k - i - 1] == listing[k];
  }
}
