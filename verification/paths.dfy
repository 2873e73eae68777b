/** String and path helpers shared by the three walks and the navigator:
    `path.join` / `path.posix.join` for one listing name, the `\` to `/`
    replacement, `String.prototype.split('/')`, ASCII case folding and
    `path.extname`. */
module Paths {

  /** `path.join(base, name)` (and `path.posix.join`) for a base produced by
      the walk and one name read from a directory listing. A listing never
      yields an empty name, `.` or `..`, so the name itself brings nothing to
      normalise. A base that holds `//`, `/./`, `/../` or ends in `/` (which
      the `\` to `/` replacement of generate.js can produce from a name
      holding `\`) would be normalised by `path.join`; that is not modelled
      here (see README). */
  function Join(base: string, name: string): string
  {
    if base == "" then name else base + "/" + name
  }

  /** `s.replace(/\\/g, "/")`. */
  function ToSlash(s: string): (r: string)
    ensures |r| == |s|
    ensures '\\' !in r
    ensures forall i :: 0 <= i < |s| && s[i] != '\\' ==> r[i] == s[i]
    ensures forall i :: 0 <= i < |s| && s[i] == '\\' ==> r[i] == '/'
  {
    if s == [] then [] else [if s[0] == '\\' then '/' else s[0]] + ToSlash(s[1..])
  }

  /** `s.startsWith(".")`. */
  predicate StartsWithDot(s: string)
  {
    |s| > 0 && s[0] == '.'
  }

  /** A name as a directory listing returns it on a POSIX system, and
      without the separator of the other family either. */
  predicate NameOk(name: string)
  {
    name != "" && '/' !in name && '\\' !in name && name != "." && name != ".."
  }

  /** A name that `path.posix.join` appends as exactly one segment:
      non-empty and without `/`. */
  predicate SegmentOk(name: string)
  {
    name != "" && '/' !in name
  }

  /** The inverse of `Split`: the parts joined with `/`. */
  function JoinSlash(parts: seq<string>): string
    requires |parts| >= 1
  {
    if |parts| == 1 then parts[0] else parts[0] + "/" + JoinSlash(parts[1..])
  }

  /** `s.split('/')`: never empty, and an empty string gives `[""]`. */
  function Split(s: string): (parts: seq<string>)
    ensures |parts| >= 1
    ensures forall i :: 0 <= i < |parts| ==> '/' !in parts[i]
    decreases |s|
  {
    if s == [] then [""]
    else if s[0] == '/' then [""] + Split(s[1..])
    else
      var rest := Split(s[1..]);
      [[s[0]] + rest[0]] + rest[1..]
  }

  /** Joining a part in front of at least one more. */
  lemma JoinSlashCons(x: string, rest: seq<string>)
    requires |rest| >= 1
    ensures JoinSlash([x] + rest) == x + "/" + JoinSlash(rest)
  {
    assert ([x] + rest)[1..] == rest;
  }

  /** Regrouping a concatenation of three sequences. */
  lemma ConcatAssoc<T>(x: seq<T>, y: seq<T>, z: seq<T>)
    ensures (x + y) + z == x + (y + z)
  {
  }

  /** Regrouping a join whose first part starts with `c`. */
  lemma SlashAssoc(c: char, r: string, t: string)
    ensures ([c] + r) + "/" + t == [c] + (r + "/" + t)
  {
  }

  /** Prepending a character to the first part prepends it to the join. */
  lemma SplitHeadJoin(c: char, rest: seq<string>)
    requires |rest| >= 1
    ensures JoinSlash([[c] + rest[0]] + rest[1..]) == [c] + JoinSlash(rest)
  {
    if |rest| == 1 {
      assert [[c] + rest[0]] + rest[1..] == [[c] + rest[0]];
    } else {
      var t := JoinSlash(rest[1..]);
      JoinSlashCons([c] + rest[0], rest[1..]);
      JoinSlashCons(rest[0], rest[1..]);
      assert [rest[0]] + rest[1..] == rest;
      SlashAssoc(c, rest[0], t);
    }
  }

  /** Round trip: joining the parts of `s.split('/')` with `/` gives `s`. */
  lemma {:induction false} JoinSplit(s: string)
    ensures JoinSlash(Split(s)) == s
    decreases |s|
  {
    if s != [] {
      JoinSplit(s[1..]);
      if s[0] == '/' {
        assert [""] + Split(s[1..]) == Split(s);
        assert ([""] + Split(s[1..]))[1..] == Split(s[1..]);
      } else {
        SplitHeadJoin(s[0], Split(s[1..]));
      }
      assert [s[0]] + s[1..] == s;
    }
  }

  /** A leading `/` adds an empty first part. */
  lemma SplitLeadingSlash(p: string)
    ensures Split("/" + p) == [""] + Split(p)
  {
    assert ("/" + p)[0] == '/' && ("/" + p)[1..] == p;
  }

  /** A string without `/` splits into itself. */
  lemma {:induction false} SplitNoSlash(s: string)
    requires '/' !in s
    ensures Split(s) == [s]
    decreases |s|
  {
    if s != [] {
      assert '/' !in s[1..] by {
        forall i | 0 <= i < |s[1..]| ensures s[1..][i] != '/' { assert s[1..][i] == s[i + 1]; }
      }
      SplitNoSlash(s[1..]);
      assert [s[0]] + s[1..] == s;
    }
  }

  /** Splitting at a `/` splits the two sides independently. */
  lemma {:induction false} SplitConcat(x: string, y: string)
    ensures Split(x + "/" + y) == Split(x) + Split(y)
    decreases |x|
  {
    var s := x + "/" + y;
    if x == [] {
      assert s == "/" + y && s[1..] == y;
    } else {
      assert s[0] == x[0] && s[1..] == x[1..] + "/" + y;
      SplitConcat(x[1..], y);
      var r, ry := Split(x[1..]), Split(y);
      if x[0] == '/' {
        assert Split(s) == [""] + (r + ry);
        assert Split(x) == [""] + r;
        ConcatAssoc([""], r, ry);
      } else {
        var h := [[x[0]] + r[0]];
        assert (r + ry)[0] == r[0] && (r + ry)[1..] == r[1..] + ry;
        assert Split(s) == h + (r[1..] + ry);
        assert Split(x) == h + r[1..];
        ConcatAssoc(h, r[1..], ry);
      }
    }
  }

  /** Round trip: joining parts that hold no `/` and splitting gives the parts back. */
  lemma {:induction false} SplitJoinSlash(parts: seq<string>)
    requires |parts| >= 1
    requires forall i :: 0 <= i < |parts| ==> '/' !in parts[i]
    ensures Split(JoinSlash(parts)) == parts
  {
    if |parts| == 1 {
      SplitNoSlash(parts[0]);
    } else {
      SplitNoSlash(parts[0]);
      SplitJoinSlash(parts[1..]);
      SplitConcat(parts[0], JoinSlash(parts[1..]));
    }
  }

  /** The segments of a directory path; none for the root `""`. */
  function Segments(base: string): seq<string>
  {
    if base == "" then [] else Split(base)
  }

  /** The segments of `Join(base, name)`: those of `base` followed by `name`
      alone, so `name` is the last segment and a child path is one segment
      longer than its parent's. */
  lemma JoinSegments(base: string, name: string)
    requires '/' !in name
    ensures Split(Join(base, name)) == Segments(base) + [name]
  {
    SplitNoSlash(name);
    if base != "" {
      SplitConcat(base, name);
    }
  }

  /** The replacement leaves a string without `\` unchanged. */
  lemma {:induction false} ToSlashIdentity(s: string)
    requires '\\' !in s
    ensures ToSlash(s) == s
  {
    if s != [] {
      assert '\\' !in s[1..] by {
        forall i | 0 <= i < |s[1..]| ensures s[1..][i] != '\\' { assert s[1..][i] == s[i + 1]; }
      }
      ToSlashIdentity(s[1..]);
      assert [s[0]] + s[1..] == s;
    }
  }

  /** ASCII lower-casing of one character. */
  function LowerChar(c: char): char
  {
    if 'A' <= c <= 'Z' then (c as int - 'A' as int + 'a' as int) as char else c
  }

  /** `s.toLowerCase()` restricted to ASCII letters (see README). */
  function Lower(s: string): (r: string)
    ensures |r| == |s|
    ensures forall i :: 0 <= i < |s| ==> r[i] == LowerChar(s[i])
  {
    if s == [] then [] else [LowerChar(s[0])] + Lower(s[1..])
  }

  /** `s` ends with the lower-case `suffix`, ignoring ASCII case. */
  predicate EndsWithIgnoringCase(s: string, suffix: string)
  {
    |suffix| <= |s| && Lower(s[|s| - |suffix|..]) == suffix
  }

  /** The index of the last `.` in `s`, if any. */
  function LastDot(s: string): (r: int)
    ensures -1 <= r < |s|
    ensures r >= 0 ==> s[r] == '.'
    ensures forall i :: r < i < |s| ==> s[i] != '.'
  {
    if s == [] then -1
    else if s[|s| - 1] == '.' then |s| - 1
    else LastDot(s[..|s| - 1])
  }

  /** `path.extname(name)` for a name without `/`: from the last `.` to the
      end; empty when there is no `.`, when the last `.` is the first
      character (`.png`) and for `..`. */
  function Extname(name: string): string
  {
    var d := LastDot(name);
    if d <= 0 || name == ".." then ""
    else name[d..]
  }

  /** What `path.extname` finds: nothing exactly when the name is `..` or
      has no `.` after its first character; otherwise a `.` with no further
      dot that is a proper suffix of the name. */
  lemma ExtnameShape(name: string)
    ensures var ext := Extname(name);
      && (ext == "" <==> name == ".." || forall i :: 0 < i < |name| ==> name[i] != '.')
      && (ext == "" || (ext[0] == '.' && '.' !in ext[1..]))
      && (ext != "" ==> |ext| < |name| && name[|name| - |ext|..] == ext)
  {
    var d := LastDot(name);
    if d > 0 && name != ".." {
      assert Extname(name)[1..] == name[d + 1..];
    }
  }
}
