/**
  The way `download_file` puts a body in place: it is written to a temporary
  file beside the destination (`save_path.with_suffix(".tmp")`), which then
  replaces the destination (`temp_path.replace(save_path)`). The directory is
  a map from path to content.
*/
module AtomicWrite {

  import opened Text

  newtype byte = b: int | 0 <= b < 256

  /** The index of the last `c` in `s`, or -1 (`str.rfind`). */
  function LastIndex(s: string, c: char): (i: int)
    ensures -1 <= i < |s|
    ensures i >= 0 ==> s[i] == c && c !in s[i + 1..]
    ensures i == -1 ==> c !in s
    decreases |s|
  {
    if s == [] then -1
    else if s[|s| - 1] == c then |s| - 1
    else
      var i := LastIndex(s[..|s| - 1], c);
      assert s == s[..|s| - 1] + [s[|s| - 1]];
      assert i >= 0 ==> s[i + 1..] == s[..|s| - 1][i + 1..] + [s[|s| - 1]];
      i
  }

  /** `PurePath.suffix`: from the last dot of the name, unless it is the first or the last character. */
  function Suffix(name: string): (r: string)
    ensures EndsWith(name, r)
    ensures r == [] || (r[0] == '.' && |r| >= 2 && '.' !in r[1..])
  {
    var i := LastIndex(name, '.');
    if 0 < i < |name| - 1 then
      assert name[i..][1..] == name[i + 1..];
      name[i..]
    else []
  }

  /** `PurePath.with_suffix(".tmp")` on a path written with `/` separators. */
  function TempPath(path: string): (t: string)
    requires Last(Split(path, '/')) != []
    ensures EndsWith(t, ".tmp")
  {
    var name := Last(Split(path, '/'));
    var suffix := Suffix(name);
    SuffixOfLastPart(path, suffix);
    path[..|path| - |suffix|] + ".tmp"
  }

  /** A suffix of the last part is a suffix of the path. */
  lemma SuffixOfLastPart(path: string, t: string)
    requires EndsWith(Last(Split(path, '/')), t)
    ensures |t| <= |path| && EndsWith(path, t)
  {
    var name := Last(Split(path, '/'));
    LastPartIsSuffix(path, '/');
    EndsWithTransitive(path, name, t);
  }

  /** A path that does not already end in `.tmp` is never its own temporary file. */
  lemma TempPathIsElsewhere(path: string)
    requires Last(Split(path, '/')) != [] && !EndsWith(path, ".tmp")
    ensures TempPath(path) != path
  {
  }

  /**
    `os.replace(src, dst)`: the file at `src` now sits at `dst`, and nothing
    else changes. Replacing a file by itself changes nothing.
  */
  function Replace(files: map<string, seq<byte>>, src: string, dst: string): (r: map<string, seq<byte>>)
    requires src in files
    ensures dst in r && r[dst] == files[src]
    ensures src != dst ==> src !in r
    ensures forall p | p != src && p != dst :: (p in r <==> p in files) && (p in r ==> r[p] == files[p])
  {
    if src == dst then files else files[dst := files[src]] - {src}
  }

  /** The body is written to the temporary file, which then replaces the destination. */
  function Commit(files: map<string, seq<byte>>, path: string, body: seq<byte>): (r: map<string, seq<byte>>)
    requires Last(Split(path, '/')) != []
    ensures path in r && r[path] == body
  {
    var temp := TempPath(path);
    Replace(files[temp := body], temp, path)
  }

  /**
    The destination only ever holds a whole body: after the commit it holds
    exactly the body, the temporary file is gone, and every other file is as
    it was.
  */
  lemma CommitStoresWholeBody(files: map<string, seq<byte>>, path: string, body: seq<byte>)
    requires Last(Split(path, '/')) != [] && !EndsWith(path, ".tmp")
    ensures var r := Commit(files, path, body);
            && path in r && r[path] == body
            && TempPath(path) !in r
            && forall p | p != path && p != TempPath(path) :: (p in r <==> p in files) && (p in r ==> r[p] == files[p])
  {
    TempPathIsElsewhere(path);
  }

  /**
    A commit never removes a file other than a temporary one: only the
    temporary path leaves the directory, and it ends in `.tmp`.
  */
  lemma CommitKeepsFinalFiles(files: map<string, seq<byte>>, path: string, body: seq<byte>)
    requires Last(Split(path, '/')) != []
    ensures forall p | p in files && !EndsWith(p, ".tmp") :: p in Commit(files, path, body)
  {
    var r := Commit(files, path, body);
    forall p | p in files && !EndsWith(p, ".tmp") ensures p in r {
      assert p != TempPath(path);
    }
  }
}
