/**
  `parse_game_asset_path`: an Unreal Engine package path such as
  `/Game/Aki/UI/.../T_Icon.T_Icon` becomes the URL of its `.webp` rendition on
  the asset host. The game root is folded to `/`, the object suffix
  (regular expression `\.[^/]+$`) is cut, `.webp` is appended unless an image
  extension is already there, leading slashes go, and the rest is joined onto
  `https://api.hakush.in/ww/` with `urljoin`.
*/
module AssetPath {

  import opened Wrappers
  import opened JsonValues
  import opened Text
  import opened UrlJoin

  const GAME_ROOT := "/Game/Aki/"
  const BASE_ASSET_URL := "https://api.hakush.in/ww/"
  const ASSET_BASE := BaseUrl("https", "api.hakush.in", "/ww/")
  const ASSET_HOST := "https://api.hakush.in/"
  const WEBP := ".webp"

  /** The asset host URL, split as `urljoin` splits it. */
  lemma AssetBaseText()
    ensures BaseText(ASSET_BASE) == BASE_ASSET_URL
    ensures ASSET_BASE.scheme + "://" + ASSET_BASE.netloc + "/" == ASSET_HOST
    ensures ASSET_BASE.path == "/" + "ww" + "/"
  {
  }

  /** A URL that starts with the asset base's scheme and host is on the asset host. */
  lemma OnAssetHost(url: string)
    requires StartsWith(url, ASSET_BASE.scheme + "://" + ASSET_BASE.netloc + "/")
    ensures StartsWith(url, ASSET_HOST)
  {
    AssetBaseText();
  }

  /** `game_path.replace("/Game/Aki/", "/")`. */
  function Normalize(s: string): string {
    ReplaceAll(s, GAME_ROOT, "/")
  }

  // ---------------------------------------------------------------------------
  // re.sub(r'\.[^/]+$', '', path)

  /**
    The pattern `\.[^/]+$` matches from index `j`: a dot, then at least one
    character, none of them a slash, up to the end of the string.
  */
  predicate ExtensionAt(s: string, j: int) {
    0 <= j < |s| - 1 && s[j] == '.' && '/' !in s[j + 1..]
  }

  /** The leftmost index from `k` on where the pattern matches, or `|s|`. */
  function ExtensionFrom(s: string, k: nat): (i: nat)
    requires k <= |s|
    ensures k <= i <= |s|
    ensures i == |s| || ExtensionAt(s, i)
    ensures forall j | k <= j < i :: !ExtensionAt(s, j)
    decreases |s| - k
  {
    if k == |s| then k
    else if ExtensionAt(s, k) then k
    else ExtensionFrom(s, k + 1)
  }

  /**
    The substitution: the leftmost match runs to the end of the string, so
    removing it leaves the prefix before it, and no second match is possible.
  */
  function StripExtension(s: string): (r: string)
    ensures StartsWith(s, r)
    ensures r == s || ExtensionAt(s, |r|)
    ensures forall j | 0 <= j < |r| :: !ExtensionAt(s, j)
  {
    s[..ExtensionFrom(s, 0)]
  }

  /** `path.lower().endswith(('.png', '.jpg', '.webp'))`. */
  predicate HasImageExtension(p: string) {
    var l := Lower(p);
    EndsWith(l, ".png") || EndsWith(l, ".jpg") || EndsWith(l, WEBP)
  }

  /** Append `.webp` unless the path already names an image file; either way the result names one. */
  function WithImageSuffix(p: string): (r: string)
    ensures StartsWith(r, p) && HasImageExtension(r)
  {
    if HasImageExtension(p) then p
    else
      var r := p + WEBP;
      assert Lower(r)[|r| - |WEBP|..] == WEBP by {
        forall k | 0 <= k < |WEBP| ensures Lower(r)[|r| - |WEBP| + k] == WEBP[k] {
          assert r[|p| + k] == WEBP[k];
        }
      }
      r
  }

  /** The path handed to `urljoin`: every step before the join. */
  function RelativeAssetPath(s: string): (r: string)
    ensures r == [] || r[0] != '/'
  {
    LStrip(WithImageSuffix(StripExtension(Normalize(s))), '/')
  }

  /** `parse_game_asset_path(game_path)`. */
  function ParseGameAssetPath(gamePath: Json): (r: Option<string>)
    requires gamePath.Str? ==> AllPlain(gamePath.s)
    ensures r.Some? <==> gamePath.Str? && gamePath.s != [] && '/' in Normalize(gamePath.s)
    ensures r.Some? ==> StartsWith(r.value, ASSET_HOST) && EndsWith(r.value, WEBP)
  {
    if !gamePath.Str? || gamePath.s == [] then None
    else if '/' !in Normalize(gamePath.s) then None
    else
      AssetUrlShape(gamePath.s);
      Some(Join(ASSET_BASE, RelativeAssetPath(gamePath.s)))
  }

  // ---------------------------------------------------------------------------
  // Properties of the steps


  /**
    After the substitution, a dot in the path is always followed somewhere by
    a slash, unless it is the very last character: the last segment keeps no
    inner dot.
  */
  lemma StrippedHasNoInnerDot(s: string)
    ensures var r := StripExtension(s);
            forall j | 0 <= j < |r| - 1 :: r[j] == '.' ==> '/' in r[j + 1..]
  {
    var r := StripExtension(s);
    forall j | 0 <= j < |r| - 1 && r[j] == '.' ensures '/' in r[j + 1..] {
      assert !ExtensionAt(s, j);
      if r != s {
        var i := |r|;
        assert s[j + 1..] == r[j + 1..] + s[i..];
        assert s[i..] == [s[i]] + s[i + 1..];
        assert '/' in s[j + 1..];
      }
    }
  }

  /** `lower()` maps no character to `/` or `.` except `/` and `.` themselves. */
  lemma LowerKeepsPunctuation(p: string, j: int)
    requires 0 <= j < |p|
    ensures Lower(p)[j] == '.' <==> p[j] == '.'
    ensures Lower(p)[j] == '/' <==> p[j] == '/'
  {
  }

  /**
    Without an inner dot, the path cannot end in a dot followed by
    slash-free text such as `png`.
  */
  lemma NoDotTail(r: string, ext: string)
    requires |ext| >= 2 && ext[0] == '.' && '/' !in ext
    requires forall j | 0 <= j < |r| - 1 :: r[j] == '.' ==> '/' in r[j + 1..]
    ensures !EndsWith(Lower(r), ext)
  {
    if |ext| <= |r| {
      var j := |r| - |ext|;
      var l := Lower(r);
      LowerKeepsPunctuation(r, j);
      if r[j] == '.' {
        assert '/' in r[j + 1..];
        var k :| 0 <= k < |r[j + 1..]| && r[j + 1..][k] == '/';
        var m := j + 1 + k;
        LowerKeepsPunctuation(r, m);
        assert l[j..][m - j] == '/';
      } else {
        assert l[j..][0] != ext[0];
      }
    }
  }

  /**
    The extension test never succeeds: the substitution already removed any
    `.png`, `.jpg` or `.webp` ending, so `.webp` is always appended.
  */
  lemma StrippedIsNeverImage(s: string)
    ensures !HasImageExtension(StripExtension(s))
    ensures WithImageSuffix(StripExtension(s)) == StripExtension(s) + WEBP
  {
    var r := StripExtension(s);
    StrippedHasNoInnerDot(s);
    NoDotTail(r, ".png");
    NoDotTail(r, ".jpg");
    NoDotTail(r, WEBP);
  }

  /** A string that holds the game root or `/UI/` still holds a `/` after folding. */
  lemma CandidateKeepsSlash(s: string)
    requires Contains(s, GAME_ROOT) || Contains(s, "/UI/")
    ensures '/' in Normalize(s)
  {
    if Contains(s, GAME_ROOT) {
      ReplaceAllInsertsReplacement(s, GAME_ROOT, "/", '/');
    } else {
      ContainsKeepsChars(s, "/UI/", '/');
      ReplaceAllKeepsChar(s, GAME_ROOT, "/", '/');
    }
  }

  /**
    The relative path is in the case the join models, does not start with a
    slash, and ends in `.webp`.
  */
  lemma RelativePathFacts(s: string)
    requires AllPlain(s)
    ensures var rel := RelativeAssetPath(s);
            InModelledCase(rel) && rel != [] && EndsWith(rel, WEBP)
  {
    var n := Normalize(s);
    var stripped := StripExtension(n);
    StrippedIsNeverImage(n);
    NormalizePlain(s);
    StrippedPlain(n);
    assert AllPlain(WEBP);
    AllPlainConcat(stripped, WEBP);
    StrippedLeadingSlashes(stripped + WEBP, WEBP);
  }

  /** Replacing the game root by a slash keeps the text plain. */
  lemma NormalizePlain(s: string)
    requires AllPlain(s)
    ensures AllPlain(Normalize(s))
  {
    forall c | c in Normalize(s) ensures PlainChar(c) {
      ReplaceAllChars(s, GAME_ROOT, "/", c);
    }
  }

  /** Dropping the extension keeps the text plain. */
  lemma StrippedPlain(n: string)
    requires AllPlain(n)
    ensures AllPlain(StripExtension(n))
  {
    var stripped := StripExtension(n);
    AllPlainSlice(n, 0, |stripped|);
    assert n[0..|stripped|] == stripped;
  }

  /** Plain text ending in `t` stays so once its leading slashes are gone, and no longer starts with one. */
  lemma StrippedLeadingSlashes(full: string, t: string)
    requires AllPlain(full) && EndsWith(full, t) && t != [] && t[0] != '/'
    ensures var rel := LStrip(full, '/');
            InModelledCase(rel) && rel != [] && EndsWith(rel, t)
  {
    var rel := LStrip(full, '/');
    LStripKeepsSuffix(full, '/', t);
    AllPlainSlice(full, |full| - |rel|, |full|);
    assert full[|full| - |rel|..|full|] == rel;
  }

  /**
    Wherever dot segments lead, the URL stays on the asset host and ends in
    `.webp`.
  */
  lemma AssetUrlShape(s: string)
    requires AllPlain(s)
    ensures InModelledCase(RelativeAssetPath(s))
    ensures var url := Join(ASSET_BASE, RelativeAssetPath(s));
            StartsWith(url, ASSET_HOST) && EndsWith(url, WEBP)
  {
    var rel := RelativeAssetPath(s);
    RelativePathFacts(s);
    JoinedAssetUrl(rel);
  }

  /** A relative path ending in `.webp` joins to a `.webp` URL on the asset host. */
  lemma JoinedAssetUrl(rel: string)
    requires InModelledCase(rel) && EndsWith(rel, WEBP)
    ensures StartsWith(Join(ASSET_BASE, rel), ASSET_HOST) && EndsWith(Join(ASSET_BASE, rel), WEBP)
  {
    assert '/' !in WEBP;
    JoinKeepsTail(ASSET_BASE, rel, WEBP);
    OnAssetHost(Join(ASSET_BASE, rel));
  }

  /**
    The concatenation case: when the relative path's segments are all
    ordinary names, the URL is the asset base followed by the cleaned path
    with its leading slashes removed.
  */
  lemma ParseIsConcatenation(s: string)
    requires AllPlain(s) && s != [] && '/' in Normalize(s)
    requires PlainSegments(Split(RelativeAssetPath(s), '/'))
    ensures ParseGameAssetPath(Str(s)) == Some(BASE_ASSET_URL + RelativeAssetPath(s))
  {
    var rel := RelativeAssetPath(s);
    RelativePathFacts(s);
    assert ParseGameAssetPath(Str(s)) == Some(Join(ASSET_BASE, rel));
    AssetBaseDirectory();
    AssetBaseText();
    JoinIsConcatenation(ASSET_BASE, rel);
  }

  /** The asset base path `/ww/` names a directory. */
  lemma AssetBaseDirectory()
    ensures Split(ASSET_BASE.path, '/') == ["", "ww", ""]
    ensures BaseDirectory(ASSET_BASE.path) == ["", "ww", ""]
    ensures DirectoryPath(ASSET_BASE.path)
  {
    var parts: seq<string> := ["", "ww", ""];
    assert JoinWith(parts, '/') == "/ww/";
    SplitJoin(parts, '/');
  }

  /**
    The regular expression cuts at the dot that starts the last segment's
    slash-free tail when no earlier dot of that segment qualifies.
  */
  lemma StripAtFirstDotOfLastSegment(a: string, b: string)
    requires DotsBeforeSlash(a)
    requires b != [] && '/' !in b
    ensures StripExtension(a + "." + b) == a
  {
    var s := a + "." + b;
    assert s[|a| + 1..] == b;
    assert ExtensionAt(s, |a|);
    forall j | 0 <= j < |a| ensures !ExtensionAt(s, j) {
      if a[j] == '.' {
        assert s[j + 1..] == a[j + 1..] + "." + b;
      }
    }
    assert s[..|a|] == a;
  }

  /** Every dot of `p` has a slash somewhere after it: no dot in its last segment. */
  predicate DotsBeforeSlash(p: string) {
    forall j | 0 <= j < |p| :: p[j] == '.' ==> '/' in p[j + 1..]
  }

  /** A slash in front, or dot-free text behind, keeps every dot before a slash. */
  lemma DotsBeforeSlashExtend(a: string, b: string)
    requires DotsBeforeSlash(a) && '.' !in b
    ensures DotsBeforeSlash("/" + a + b)
  {
    var p := "/" + a + b;
    forall j | 0 <= j < |p| && p[j] == '.' ensures '/' in p[j + 1..] {
      assert 1 <= j <= |a|;
      assert p[j] == a[j - 1];
      assert p[j + 1..] == a[j..] + b;
    }
  }

  /** Folding the game root at the front of a path that holds no other game root. */
  lemma NormalizeLeadingRoot(rest: string)
    requires !Contains(rest, GAME_ROOT)
    ensures Normalize(GAME_ROOT + rest) == "/" + rest
  {
    var input := GAME_ROOT + rest;
    assert input[..|GAME_ROOT|] == GAME_ROOT;
    assert input[|GAME_ROOT|..] == rest;
    ReplaceAllWithoutOccurrence(rest, GAME_ROOT, "/");
  }

  /** Leading slashes of `"/" + x` go when `x` itself does not start with one. */
  lemma LStripOneSlash(x: string)
    requires x != [] && x[0] != '/'
    ensures LStrip("/" + x, '/') == x
  {
    assert ("/" + x)[1..] == x;
  }

  // ---------------------------------------------------------------------------
  // Paths of ordinary names

  /** A segment name with no slash and no dot, made of plain characters. */
  predicate SimpleName(s: string) {
    s != [] && AllPlain(s) && '/' !in s && '.' !in s
  }

  /** The directory text `d1/d2/.../dn/` of a sequence of names. */
  function DirText(dirs: seq<string>): string {
    if dirs == [] then [] else DirText(dirs[..|dirs| - 1]) + Last(dirs) + "/"
  }

  /** Splitting a directory text followed by a name gives the names back. */
  lemma {:induction false} DirTextSplit(dirs: seq<string>, t: string)
    requires forall i | 0 <= i < |dirs| :: '/' !in dirs[i]
    requires '/' !in t
    ensures Split(DirText(dirs) + t, '/') == dirs + [t]
    decreases |dirs|
  {
    if dirs == [] {
      SplitWithoutSeparator(t, '/');
      assert [] + t == t;
    } else {
      var init := dirs[..|dirs| - 1];
      var x := Last(dirs);
      DirTextSplit(init, x);
      var d := DirText(init);
      assert DirText(dirs) + t == (d + x) + ['/'] + t;
      SplitAppendPart(d + x, t, '/');
      assert dirs == init + [x];
    }
  }

  /** A directory text of simple names is plain, dot-free and starts with a name. */
  lemma {:induction false} DirTextPlain(dirs: seq<string>)
    requires forall i | 0 <= i < |dirs| :: SimpleName(dirs[i])
    ensures AllPlain(DirText(dirs)) && '.' !in DirText(dirs)
    ensures DirText(dirs) == [] || DirText(dirs)[0] != '/'
    decreases |dirs|
  {
    if dirs != [] {
      var init := dirs[..|dirs| - 1];
      DirTextPlain(init);
      var d := DirText(init);
      if d == [] {
        assert DirText(dirs)[0] == Last(dirs)[0];
      } else {
        assert DirText(dirs)[0] == d[0];
      }
    }
  }

  /** Proof helper: the game root is plain text. */
  lemma GameRootPlain()
    ensures AllPlain(GAME_ROOT)
  {
  }

  /** A path under the game root is plain when the rest of it is. */
  lemma PlainUnderRoot(rest: string)
    requires AllPlain(rest)
    ensures AllPlain(GAME_ROOT + rest)
  {
    GameRootPlain();
  }

  /** After the cut, `.webp` is appended and the leading slash removed. */
  lemma RelativeOfStem(s: string, stem: string)
    requires StripExtension(Normalize(s)) == "/" + stem
    requires stem != [] && stem[0] != '/'
    ensures RelativeAssetPath(s) == stem + WEBP
  {
    StrippedIsNeverImage(Normalize(s));
    assert "/" + stem + WEBP == "/" + (stem + WEBP);
    LStripOneSlash(stem + WEBP);
  }

  /**
    The folding, cutting and stripping steps on a path `dir` + `Name.Object`
    whose directory part leaves no dot in the last segment.
  */
  lemma UnderRootRelative(dir: string, name: string, obj: string)
    requires DotsBeforeSlash(dir) && (dir == [] || dir[0] != '/')
    requires SimpleName(name) && obj != [] && '/' !in obj
    requires !Contains(dir + name + "." + obj, GAME_ROOT)
    ensures RelativeAssetPath(GAME_ROOT + (dir + name + "." + obj)) == dir + name + WEBP
    ensures '/' in Normalize(GAME_ROOT + (dir + name + "." + obj))
  {
    var rest := dir + name + "." + obj;
    var input := GAME_ROOT + rest;
    NormalizeLeadingRoot(rest);
    var stem := dir + name;
    assert "/" + rest == ("/" + dir + name) + "." + obj;
    DotsBeforeSlashExtend(dir, name);
    StripAtFirstDotOfLastSegment("/" + dir + name, obj);
    assert "/" + dir + name == "/" + stem;
    assert stem[0] != '/' by {
      if dir == [] {
        assert stem[0] == name[0];
      } else {
        assert stem[0] == dir[0];
      }
    }
    RelativeOfStem(input, stem);
    assert ("/" + rest)[0] == '/';
  }

  /** Ordinary names and a `.webp` leaf are plain segments. */
  lemma UnderRootSegments(dirs: seq<string>, name: string)
    requires forall i | 0 <= i < |dirs| :: SimpleName(dirs[i])
    requires SimpleName(name)
    ensures PlainSegments(Split(DirText(dirs) + name + WEBP, '/'))
  {
    var leaf := name + WEBP;
    DirTextSplit(dirs, leaf);
    assert DirText(dirs) + leaf == DirText(dirs) + name + WEBP;
    var segs := dirs + [leaf];
    forall i | 0 <= i < |segs| ensures segs[i] != [] && !IsDotSegment(segs[i]) {
      if i < |dirs| {
        assert segs[i] == dirs[i];
        assert '.' in "." && '.' in "..";
      } else {
        assert |segs[i]| >= 5;
      }
    }
  }

  /**
    A path under the game root made of ordinary directory names and a
    `Name.Object` leaf resolves to the asset base, the same directories and
    `Name.webp`.
  */
  lemma ParseUnderRoot(dirs: seq<string>, name: string, obj: string)
    requires forall i | 0 <= i < |dirs| :: SimpleName(dirs[i])
    requires SimpleName(name) && obj != [] && AllPlain(obj) && '/' !in obj
    requires !Contains(DirText(dirs) + name + "." + obj, GAME_ROOT)
    ensures AllPlain(GAME_ROOT + (DirText(dirs) + name + "." + obj))
    ensures ParseGameAssetPath(Str(GAME_ROOT + (DirText(dirs) + name + "." + obj)))
            == Some(BASE_ASSET_URL + (DirText(dirs) + name + WEBP))
  {
    var dir := DirText(dirs);
    var rest := dir + name + "." + obj;
    var input := GAME_ROOT + rest;
    DirTextPlain(dirs);
    PlainUnderRoot(rest);
    assert DotsBeforeSlash(dir);
    UnderRootRelative(dir, name, obj);
    UnderRootSegments(dirs, name);
    ParseIsConcatenation(input);
  }

  lemma ParentPathPlain(name: string, obj: string)
    requires AllPlain(name) && AllPlain(obj)
    ensures AllPlain(GAME_ROOT + ("../" + name + "." + obj))
  {
    assert AllPlain("../" + name + "." + obj);
    PlainUnderRoot("../" + name + "." + obj);
  }

  /** The folding, cutting and stripping steps on `../Name.Object`. */
  lemma ParentRelative(name: string, obj: string)
    requires SimpleName(name) && obj != [] && '/' !in obj
    requires !Contains("../" + name + "." + obj, GAME_ROOT)
    ensures RelativeAssetPath(GAME_ROOT + ("../" + name + "." + obj)) == "../" + (name + WEBP)
    ensures '/' in Normalize(GAME_ROOT + ("../" + name + "." + obj))
  {
    var dir := "../";
    assert DotsBeforeSlash(dir) by {
      assert dir[1..] == "./" && dir[2..] == "/";
    }
    UnderRootRelative(dir, name, obj);
    AppendAssoc(dir, name, WEBP);
  }

  /**
    Dot segments are resolved, not kept: a `..` right after the game root
    climbs out of `/ww/` to the root of the asset host.
  */
  lemma ParentSegmentLeavesBase(name: string, obj: string)
    requires SimpleName(name) && obj != [] && AllPlain(obj) && '/' !in obj
    requires !Contains("../" + name + "." + obj, GAME_ROOT)
    ensures AllPlain(GAME_ROOT + ("../" + name + "." + obj))
    ensures ParseGameAssetPath(Str(GAME_ROOT + ("../" + name + "." + obj))) == Some(ASSET_HOST + (name + WEBP))
  {
    var rest := "../" + name + "." + obj;
    var input := GAME_ROOT + rest;
    ParentPathPlain(name, obj);
    ParentRelative(name, obj);
    AssetUrlShape(input);
    NameLeaf(name);
    AssetBaseParent(name + WEBP);
  }

  /** An ordinary name with `.webp` appended is a plain last segment. */
  lemma NameLeaf(name: string)
    requires SimpleName(name)
    ensures AllPlain(name + WEBP) && |name + WEBP| >= 3 && '/' !in name + WEBP
  {
    assert AllPlain(WEBP) && '/' !in WEBP;
  }

  /** `../leaf` against the asset base climbs out of `/ww/` to the host's root. */
  lemma AssetBaseParent(leaf: string)
    requires AllPlain(leaf) && |leaf| >= 3 && '/' !in leaf
    ensures InModelledCase("../" + leaf)
    ensures Join(ASSET_BASE, "../" + leaf) == ASSET_HOST + leaf
  {
    AssetBaseText();
    ParentOfOneDirectory(ASSET_BASE, "ww", leaf);
  }

  /** The example of the function's documentation. */
  lemma DocumentedExample()
    ensures AllPlain(GAME_ROOT + ("UI/UIResources/Common/Image/IconA/" + "T_IconA_hsb_UI" + "." + "T_IconA_hsb_UI"))
    ensures ParseGameAssetPath(Str(GAME_ROOT + ("UI/UIResources/Common/Image/IconA/" + "T_IconA_hsb_UI" + "." + "T_IconA_hsb_UI")))
            == Some(BASE_ASSET_URL + ("UI/UIResources/Common/Image/IconA/" + "T_IconA_hsb_UI" + WEBP))
  {
    var name := "T_IconA_hsb_UI";
    assert SimpleName(name) && 'G' !in name;
    ExampleDirText();
    ExampleLeaf(name);
  }

  /** Any simple name without a `G` as both name and object, under the example's directories. */
  lemma ExampleLeaf(name: string)
    requires SimpleName(name) && 'G' !in name
    ensures AllPlain(GAME_ROOT + (DirText(EXAMPLE_DIRS) + name + "." + name))
    ensures ParseGameAssetPath(Str(GAME_ROOT + (DirText(EXAMPLE_DIRS) + name + "." + name)))
            == Some(BASE_ASSET_URL + (DirText(EXAMPLE_DIRS) + name + WEBP))
  {
    var rest := DirText(EXAMPLE_DIRS) + name + "." + name;
    ExampleDirsSimple();
    ExampleDirText();
    assert 'G' !in rest;
    MissingCharNotContained(rest, GAME_ROOT, 'G');
    ParseUnderRoot(EXAMPLE_DIRS, name, name);
  }

  /** The directories of the documented example. */
  const EXAMPLE_DIRS: seq<string> := ["UI", "UIResources", "Common", "Image", "IconA"]

  /** Proof helper: the directories of the documented example are simple names. */
  lemma ExampleDirsSimple()
    ensures forall i | 0 <= i < |EXAMPLE_DIRS| :: SimpleName(EXAMPLE_DIRS[i])
  {
  }

  /** The directory text of the documented example. */
  lemma ExampleDirText()
    ensures DirText(EXAMPLE_DIRS) == "UI/UIResources/Common/Image/IconA/"
    ensures 'G' !in DirText(EXAMPLE_DIRS)
  {
    var dirs := EXAMPLE_DIRS;
    assert dirs[..4] == ["UI", "UIResources", "Common", "Image"];
    assert dirs[..3] == ["UI", "UIResources", "Common"];
    assert dirs[..2] == ["UI", "UIResources"];
    assert dirs[..1] == ["UI"];
    assert DirText(dirs[..1]) == "UI/" by {
      assert dirs[..1][..0] == [];
    }
    assert DirText(dirs[..2]) == "UI/UIResources/" by {
      assert dirs[..2][..1] == dirs[..1];
    }
    assert DirText(dirs[..3]) == "UI/UIResources/Common/" by {
      assert dirs[..3][..2] == dirs[..2];
    }
    assert DirText(dirs[..4]) == "UI/UIResources/Common/Image/" by {
      assert dirs[..4][..3] == dirs[..3];
    }
  }
}
