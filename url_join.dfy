/**
  The part of Python's `urllib.parse.urljoin(base, url)` that the asset-path
  resolver reaches: a relative reference made of path characters only (no
  scheme, authority, query, fragment or `;` parameters), merged with the
  base's directory and cleared of dot segments as section 5.2 of RFC 3986
  describes, in the way CPython implements it: empty inner segments are
  dropped, `..` removes the previous segment, `.` is skipped.
*/
module UrlJoin {

  import opened Text

  /** A base URL as `urlparse` splits it. */
  datatype BaseUrl = BaseUrl(scheme: string, netloc: string, path: string)

  /** `urlunsplit` for a URL that has a network location and no query or fragment. */
  function Unsplit(scheme: string, netloc: string, path: string): string {
    scheme + "://" + netloc + (if path != [] && path[0] != '/' then "/" + path else path)
  }

  function BaseText(base: BaseUrl): string {
    Unsplit(base.scheme, base.netloc, base.path)
  }

  /** A character that `urlsplit` neither strips nor treats as a delimiter. */
  predicate PlainChar(c: char) {
    c > ' ' && c != ':' && c != '?' && c != '#' && c != ';'
  }

  /** Text made of plain characters only. */
  predicate AllPlain(s: string) {
    forall c | c in s :: PlainChar(c)
  }

  /** A slice of plain text is plain. */
  lemma AllPlainSlice(s: string, i: nat, j: nat)
    requires AllPlain(s) && i <= j <= |s|
    ensures AllPlain(s[i..j])
  {
    forall c | c in s[i..j] ensures PlainChar(c) {
      var k :| 0 <= k < j - i && s[i..j][k] == c;
      assert s[i + k] == c;
    }
  }

  /** Plain text after plain text is plain. */
  lemma AllPlainConcat(a: string, b: string)
    requires AllPlain(a) && AllPlain(b)
    ensures AllPlain(a + b)
  {
    forall c | c in a + b ensures PlainChar(c) {
      assert c in a || c in b;
    }
  }

  /**
    The relative references this model joins: plain characters only, and not
    starting with `/` (an absolute path or a network-path reference).
  */
  predicate InModelledCase(rel: string) {
    AllPlain(rel) && (rel == [] || rel[0] != '/')
  }

  predicate IsDotSegment(seg: string) {
    seg == "." || seg == ".."
  }

  /** `segments[1:-1] = filter(None, segments[1:-1])`: empty inner segments go. */
  function DropEmptyInner(segs: seq<string>): (r: seq<string>)
    ensures |segs| >= 1 ==> |r| >= 1 && r[0] == segs[0] && Last(r) == Last(segs)
  {
    if |segs| < 2 then segs
    else [segs[0]] + NonEmptyOnly(segs[1..|segs| - 1]) + [Last(segs)]
  }

  /**
    The loop that builds `resolved_path`: `..` pops the last kept segment
    (if there is one), `.` is skipped, anything else is kept.
  */
  function RemoveDotSegments(segs: seq<string>, resolved: seq<string>): seq<string>
    decreases |segs|
  {
    if segs == [] then resolved
    else if segs[0] == ".." then
      RemoveDotSegments(segs[1..], if resolved == [] then [] else resolved[..|resolved| - 1])
    else if segs[0] == "." then RemoveDotSegments(segs[1..], resolved)
    else RemoveDotSegments(segs[1..], resolved + [segs[0]])
  }

  /** `base_parts`: the base path's segments, a non-empty last one dropped. */
  function BaseDirectory(path: string): (dir: seq<string>)
  {
    var parts := Split(path, '/');
    if Last(parts) != [] then parts[..|parts| - 1] else parts
  }

  /** `segments`: the base directory followed by the reference's segments. */
  function MergeSegments(basePath: string, rel: string): (segs: seq<string>)
    ensures |segs| >= 1 && Last(segs) == Last(Split(rel, '/'))
  {
    var all := BaseDirectory(basePath) + Split(rel, '/');
    assert Last(all) == Last(Split(rel, '/'));
    DropEmptyInner(all)
  }

  /** `'/'.join(resolved_path)`, a trailing dot segment leaving a final `/`. */
  function ResolvePath(segments: seq<string>): string
    requires |segments| >= 1
  {
    var resolved := RemoveDotSegments(segments, []);
    JoinWith(if IsDotSegment(Last(segments)) then resolved + [[]] else resolved, '/')
  }

  /**
    `urljoin(base, rel)` for a relative reference in the modelled case. A
    relative reference never changes the scheme or the host.
  */
  function Join(base: BaseUrl, rel: string): (r: string)
    requires InModelledCase(rel)
    ensures StartsWith(r, base.scheme + "://" + base.netloc)
  {
    if rel == [] then BaseText(base)
    else
      var path := ResolvePath(MergeSegments(base.path, rel));
      Unsplit(base.scheme, base.netloc, if path == [] then "/" else path)
  }

  /** Without dot segments, the loop keeps every segment. */
  lemma {:induction false} RemoveDotSegmentsPlain(segs: seq<string>, resolved: seq<string>)
    requires forall i | 0 <= i < |segs| :: !IsDotSegment(segs[i])
    ensures RemoveDotSegments(segs, resolved) == resolved + segs
    decreases |segs|
  {
    if segs != [] {
      RemoveDotSegmentsPlain(segs[1..], resolved + [segs[0]]);
      assert resolved + [segs[0]] + segs[1..] == resolved + segs;
    }
  }

  /** A final segment that is not a dot segment is always kept last. */
  lemma {:induction false} RemoveDotSegmentsKeepsLast(segs: seq<string>, x: string, resolved: seq<string>)
    requires !IsDotSegment(x)
    ensures RemoveDotSegments(segs + [x], resolved) == RemoveDotSegments(segs, resolved) + [x]
    decreases |segs|
  {
    if segs == [] {
      assert [] + [x] == [x];
    } else {
      assert (segs + [x])[1..] == segs[1..] + [x];
      var next :=
        if segs[0] == ".." then (if resolved == [] then [] else resolved[..|resolved| - 1])
        else if segs[0] == "." then resolved
        else resolved + [segs[0]];
      RemoveDotSegmentsKeepsLast(segs[1..], x, next);
    }
  }

  /**
    A base whose path names a directory: it starts and ends with `/`, and
    every segment between is non-empty and not a dot segment.
  */
  predicate DirectoryPath(path: string) {
    var parts := Split(path, '/');
    |parts| >= 2 && parts[0] == [] && Last(parts) == []
    && forall i | 0 < i < |parts| - 1 :: parts[i] != [] && !IsDotSegment(parts[i])
  }

  /** The segments of a reference are plain names: none empty, none a dot segment. */
  predicate PlainSegments(parts: seq<string>) {
    forall i | 0 <= i < |parts| :: parts[i] != [] && !IsDotSegment(parts[i])
  }

  /** Dropping empty inner segments after a directory `[""] + dirs + [""]`. */
  lemma {:induction false} DropEmptyAfterDirectory(dirs: seq<string>, parts: seq<string>)
    requires forall i | 0 <= i < |dirs| :: dirs[i] != []
    requires |parts| >= 1 && forall i | 0 <= i < |parts| :: parts[i] != []
    ensures DropEmptyInner([[]] + dirs + [[]] + parts) == [[]] + dirs + parts
  {
    var all := [[]] + dirs + [[]] + parts;
    var front := parts[..|parts| - 1];
    var x := Last(parts);
    var mid := dirs + [[]] + front;
    assert parts == front + [x];
    Regroup([], dirs, front, x);
    DropEmptyInnerOf([], mid, x);
    NonEmptyOnlyGap(dirs, front);
  }

  /** The two groupings of the segment lists above. */
  lemma Regroup<T>(a: T, dirs: seq<T>, front: seq<T>, x: T)
    ensures [a] + dirs + [a] + (front + [x]) == [a] + (dirs + [a] + front) + [x]
    ensures [a] + (dirs + front) + [x] == [a] + dirs + (front + [x])
  {
  }

  /** The first and last segments stay; the empty ones between them go. */
  lemma DropEmptyInnerOf(first: string, mid: seq<string>, last: string)
    ensures DropEmptyInner([first] + mid + [last]) == [first] + NonEmptyOnly(mid) + [last]
  {
    var all := [first] + mid + [last];
    assert all[1..|all| - 1] == mid;
  }

  /** Onto a directory base, plain segments follow the directory's own. */
  lemma {:induction false} MergeOntoDirectory(basePath: string, rel: string)
    requires DirectoryPath(basePath) && PlainSegments(Split(rel, '/'))
    ensures var parts := Split(basePath, '/');
            MergeSegments(basePath, rel) == parts[..|parts| - 1] + Split(rel, '/')
  {
    var baseParts := Split(basePath, '/');
    var dirs := baseParts[1..|baseParts| - 1];
    var parts := Split(rel, '/');
    assert baseParts == [[]] + dirs + [[]];
    assert BaseDirectory(basePath) == baseParts;
    assert forall i | 0 <= i < |dirs| :: dirs[i] != [] by {
      forall i | 0 <= i < |dirs| ensures dirs[i] != [] {
        assert dirs[i] == baseParts[i + 1];
      }
    }
    DropEmptyAfterDirectory(dirs, parts);
    assert baseParts[..|baseParts| - 1] == [[]] + dirs;
  }

  /** A directory path starts with `/`. */
  lemma DirectoryStartsWithSlash(path: string)
    requires DirectoryPath(path)
    ensures path != [] && path[0] == '/'
  {
    var parts := Split(path, '/');
    var head := parts[..|parts| - 1];
    JoinSplit(path, '/');
    assert parts == head + [[]];
    JoinAppend(head, [[]], '/');
    if |head| == 1 {
      assert JoinWith(head, '/') == [];
    } else {
      assert head == [[]] + head[1..];
      JoinAppend([[]], head[1..], '/');
    }
  }

  /** Joining the directory's segments with the reference's rebuilds the concatenated text. */
  lemma JoinOntoDirectoryText(basePath: string, rel: string)
    requires DirectoryPath(basePath)
    ensures var parts := Split(basePath, '/');
            JoinWith(parts[..|parts| - 1] + Split(rel, '/'), '/') == basePath + rel
  {
    var baseParts := Split(basePath, '/');
    var head := baseParts[..|baseParts| - 1];
    var parts := Split(rel, '/');
    JoinSplit(basePath, '/');
    JoinSplit(rel, '/');
    assert baseParts == head + [[]];
    JoinAppend(head, [[]], '/');
    JoinAppend(head, parts, '/');
  }

  /** The merged segments of a plain reference onto a directory hold no dot segment. */
  lemma PlainMergeHasNoDots(basePath: string, rel: string)
    requires DirectoryPath(basePath) && PlainSegments(Split(rel, '/'))
    ensures var segments := MergeSegments(basePath, rel);
            forall i | 0 <= i < |segments| :: !IsDotSegment(segments[i])
  {
    var baseParts := Split(basePath, '/');
    var parts := Split(rel, '/');
    var head := baseParts[..|baseParts| - 1];
    MergeOntoDirectory(basePath, rel);
    var segments := head + parts;
    forall i | 0 <= i < |segments| ensures !IsDotSegment(segments[i]) {
      if i >= |head| {
        assert segments[i] == parts[i - |head|];
      } else if i > 0 {
        assert segments[i] == baseParts[i];
      }
    }
  }

  /**
    The concatenation case: onto a directory base, a reference whose segments
    are all plain names is simply appended.
  */
  lemma JoinIsConcatenation(base: BaseUrl, rel: string)
    requires DirectoryPath(base.path) && InModelledCase(rel) && rel != []
    requires PlainSegments(Split(rel, '/'))
    ensures Join(base, rel) == BaseText(base) + rel
  {
    var segments := MergeSegments(base.path, rel);
    MergeOntoDirectory(base.path, rel);
    PlainMergeHasNoDots(base.path, rel);
    RemoveDotSegmentsPlain(segments, []);
    assert [] + segments == segments;
    JoinOntoDirectoryText(base.path, rel);
    assert ResolvePath(segments) == base.path + rel;
    DirectoryStartsWithSlash(base.path);
    assert (base.path + rel)[0] == '/';
  }

  /** A last segment that is an ordinary name ends the resolved path. */
  lemma {:induction false} ResolvePathEndsWithLast(segments: seq<string>)
    requires |segments| >= 1 && Last(segments) != [] && !IsDotSegment(Last(segments))
    ensures ResolvePath(segments) != [] && EndsWith(ResolvePath(segments), Last(segments))
  {
    var x := Last(segments);
    var init := segments[..|segments| - 1];
    assert segments == init + [x];
    RemoveDotSegmentsKeepsLast(init, x, []);
    var ys := RemoveDotSegments(init, []);
    if ys == [] {
      assert ys + [x] == [x];
    } else {
      JoinAppend(ys, [x], '/');
    }
  }

  /**
    A reference ending in a tail of three or more characters without a slash
    resolves to a URL on the base's host that ends in the same tail.
  */
  lemma JoinKeepsTail(base: BaseUrl, rel: string, t: string)
    requires InModelledCase(rel) && EndsWith(rel, t) && |t| >= 3 && '/' !in t
    ensures StartsWith(Join(base, rel), base.scheme + "://" + base.netloc + "/")
    ensures EndsWith(Join(base, rel), t)
  {
    LastPartEndsWith(rel, t, '/');
    var l := Last(Split(rel, '/'));
    assert |l| >= 3;
    JoinKeepsHostAndLastSegment(base, rel);
    EndsWithTransitive(Join(base, rel), l, t);
  }

  /**
    Wherever dot segments send the path, a reference whose last segment is an
    ordinary name ends the joined URL with that name, on the base's host.
  */
  lemma {:induction false} JoinKeepsHostAndLastSegment(base: BaseUrl, rel: string)
    requires InModelledCase(rel) && rel != []
    requires var l := Last(Split(rel, '/')); l != [] && !IsDotSegment(l)
    ensures StartsWith(Join(base, rel), base.scheme + "://" + base.netloc + "/")
    ensures EndsWith(Join(base, rel), Last(Split(rel, '/')))
  {
    var segments := MergeSegments(base.path, rel);
    ResolvePathEndsWithLast(segments);
    var path := ResolvePath(segments);
    assert Join(base, rel) == Unsplit(base.scheme, base.netloc, path);
    UnsplitShape(base.scheme, base.netloc, path);
    EndsWithTransitive(Join(base, rel), path, Last(segments));
  }

  /** A non-empty path follows the host after a `/`, and ends the URL. */
  lemma UnsplitShape(scheme: string, netloc: string, path: string)
    requires path != []
    ensures StartsWith(Unsplit(scheme, netloc, path), scheme + "://" + netloc + "/")
    ensures EndsWith(Unsplit(scheme, netloc, path), path)
  {
    var prefix := scheme + "://" + netloc;
    if path[0] != '/' {
      assert Unsplit(scheme, netloc, path) == prefix + "/" + path;
    } else {
      assert path == "/" + path[1..];
      assert Unsplit(scheme, netloc, path) == prefix + "/" + path[1..];
    }
  }

  // ---------------------------------------------------------------------------
  // `..` against a one-directory base

  /** The segments of a one-directory path `/d/`. */
  lemma OneDirectorySplit(d: string)
    requires '/' !in d
    ensures Split("/" + d + "/", '/') == ["", d, ""]
    ensures BaseDirectory("/" + d + "/") == ["", d, ""]
  {
    SplitWithoutSeparator([], '/');
    SplitAppendPart([], d, '/');
    assert [] + ['/'] + d == "/" + d;
    SplitAppendPart("/" + d, [], '/');
    assert "/" + d + ['/'] + [] == "/" + d + "/";
  }

  /** The segments of `../leaf`. */
  lemma ParentReferenceSplit(leaf: string)
    requires '/' !in leaf
    ensures Split("../" + leaf, '/') == ["..", leaf]
  {
    assert "../" + leaf == ".." + ['/'] + leaf;
    assert '/' !in "..";
    SplitWithoutSeparator("..", '/');
    SplitAppendPart("..", leaf, '/');
  }

  /** `../leaf` merged onto `/d/`: the empty segment between goes. */
  lemma ParentMergeSegments(d: string, leaf: string)
    requires d != [] && '/' !in d && leaf != [] && '/' !in leaf
    ensures MergeSegments("/" + d + "/", "../" + leaf) == ["", d, "..", leaf]
  {
    OneDirectorySplit(d);
    ParentReferenceSplit(leaf);
    DropEmptyAfterDirectory([d], ["..", leaf]);
    assert [[]] + [d] + [[]] + ["..", leaf] == ["", d, ""] + ["..", leaf];
    assert [[]] + [d] + ["..", leaf] == ["", d, "..", leaf];
  }

  /** `..` removes the directory segment before it. */
  lemma ParentResolvePath(d: string, leaf: string)
    requires !IsDotSegment(d) && !IsDotSegment(leaf)
    ensures ResolvePath(["", d, "..", leaf]) == "/" + leaf
  {
    var segments: seq<string> := ["", d, "..", leaf];
    assert segments[1..] == [d, "..", leaf];
    assert segments[1..][1..] == ["..", leaf];
    assert RemoveDotSegments([leaf], [""]) == ["", leaf] by {
      assert [leaf][1..] == [];
    }
    assert RemoveDotSegments(["..", leaf], ["", d]) == ["", leaf] by {
      assert ["", d][..1] == [""];
      assert ["..", leaf][1..] == [leaf];
    }
    assert RemoveDotSegments(segments[1..], [""]) == ["", leaf] by {
      assert [""] + [d] == ["", d];
    }
    assert [] + [""] == [""];
    assert RemoveDotSegments(segments, []) == ["", leaf];
    assert JoinWith(["", leaf], '/') == "" + "/" + leaf;
  }

  /**
    A `..` reference against a base in a one-directory path `/d/` climbs to
    the root of the host: the directory is not kept.
  */
  lemma ParentOfOneDirectory(base: BaseUrl, d: string, leaf: string)
    requires base.path == "/" + d + "/" && d != [] && '/' !in d && !IsDotSegment(d)
    requires AllPlain(leaf) && leaf != [] && '/' !in leaf && !IsDotSegment(leaf)
    ensures InModelledCase("../" + leaf)
    ensures Join(base, "../" + leaf) == base.scheme + "://" + base.netloc + "/" + leaf
  {
    var rel := "../" + leaf;
    assert AllPlain("../");
    assert rel[0] == '.';
    ParentMergeSegments(d, leaf);
    ParentResolvePath(d, leaf);
    var path := ResolvePath(MergeSegments(base.path, rel));
    assert path == "/" + leaf;
    assert Join(base, rel) == Unsplit(base.scheme, base.netloc, path);
  }
}
