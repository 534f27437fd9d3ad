/**
  The handful of Python `str` operations the spider relies on, over `seq<char>`:
  `in`, `startswith`/`endswith`, `replace`, `lstrip`, `lower`, `split` and
  `join`, and the comprehension that drops empty strings from a list.
*/
module Text {

  predicate StartsWith(s: string, prefix: string) {
    |prefix| <= |s| && s[..|prefix|] == prefix
  }

  predicate EndsWith(s: string, suffix: string) {
    |suffix| <= |s| && s[|s| - |suffix|..] == suffix
  }

  /** A suffix of a suffix is a suffix. */
  lemma EndsWithTransitive(s: string, t: string, u: string)
    requires EndsWith(s, t) && EndsWith(t, u)
    ensures EndsWith(s, u)
  {
    assert s[|s| - |u|..] == t[|t| - |u|..];
  }

  /** Proof helper: concatenation regroups freely. */
  lemma AppendAssoc(a: string, b: string, c: string)
    ensures a + b + c == a + (b + c)
  {
  }

  /** Python's `pat in s` for a string `pat`. */
  predicate Contains(s: string, pat: string)
    decreases |s|
  {
    StartsWith(s, pat) || (s != [] && Contains(s[1..], pat))
  }

  /** A string holding `pat` holds every character of `pat`. */
  lemma {:induction false} ContainsKeepsChars(s: string, pat: string, c: char)
    requires Contains(s, pat) && c in pat
    ensures c in s
    decreases |s|
  {
    if StartsWith(s, pat) {
      assert s[..|pat|] == pat;
      assert c in s[..|pat|];
    } else {
      ContainsKeepsChars(s[1..], pat, c);
      assert s == [s[0]] + s[1..];
    }
  }

  /** A string lacking one of `pat`'s characters does not hold `pat`. */
  lemma {:induction false} MissingCharNotContained(s: string, pat: string, c: char)
    requires c in pat && c !in s
    ensures !Contains(s, pat)
    decreases |s|
  {
    var k :| 0 <= k < |pat| && pat[k] == c;
    if |pat| <= |s| {
      assert s[..|pat|][k] != c;
    }
    if s != [] {
      MissingCharNotContained(s[1..], pat, c);
    }
  }

  // ---------------------------------------------------------------------------
  // str.replace

  /**
    Python's `s.replace(pat, rep)`: scanning from the left, every occurrence
    of `pat` that does not overlap an earlier replaced one becomes `rep`.
  */
  function ReplaceAll(s: string, pat: string, rep: string): string
    requires pat != []
    decreases |s|
  {
    if s == [] then []
    else if StartsWith(s, pat) then rep + ReplaceAll(s[|pat|..], pat, rep)
    else [s[0]] + ReplaceAll(s[1..], pat, rep)
  }

  /** A character that both `s` and the replacement hold survives the replacement. */
  lemma {:induction false} ReplaceAllKeepsChar(s: string, pat: string, rep: string, c: char)
    requires pat != [] && c in s && c in rep
    ensures c in ReplaceAll(s, pat, rep)
    decreases |s|
  {
    if StartsWith(s, pat) {
      assert ReplaceAll(s, pat, rep) == rep + ReplaceAll(s[|pat|..], pat, rep);
    } else if s[0] == c {
      assert ReplaceAll(s, pat, rep)[0] == c;
    } else {
      assert s == [s[0]] + s[1..];
      ReplaceAllKeepsChar(s[1..], pat, rep, c);
      assert ReplaceAll(s, pat, rep) == [s[0]] + ReplaceAll(s[1..], pat, rep);
    }
  }

  /** When `pat` occurs in `s`, the replacement text appears in the result. */
  lemma {:induction false} ReplaceAllInsertsReplacement(s: string, pat: string, rep: string, c: char)
    requires pat != [] && Contains(s, pat) && c in rep
    ensures c in ReplaceAll(s, pat, rep)
    decreases |s|
  {
    if StartsWith(s, pat) {
      assert ReplaceAll(s, pat, rep) == rep + ReplaceAll(s[|pat|..], pat, rep);
    } else {
      ReplaceAllInsertsReplacement(s[1..], pat, rep, c);
      assert ReplaceAll(s, pat, rep) == [s[0]] + ReplaceAll(s[1..], pat, rep);
    }
  }

  /** Without an occurrence of `pat`, `replace` returns the string unchanged. */
  lemma {:induction false} ReplaceAllWithoutOccurrence(s: string, pat: string, rep: string)
    requires pat != [] && !Contains(s, pat)
    ensures ReplaceAll(s, pat, rep) == s
    decreases |s|
  {
    if s != [] {
      ReplaceAllWithoutOccurrence(s[1..], pat, rep);
      assert s == [s[0]] + s[1..];
    }
  }

  /** Every character of the result comes from `s` or from the replacement. */
  lemma {:induction false} ReplaceAllChars(s: string, pat: string, rep: string, c: char)
    requires pat != [] && c in ReplaceAll(s, pat, rep)
    ensures c in s || c in rep
    decreases |s|
  {
    if s != [] {
      if StartsWith(s, pat) {
        var rest := ReplaceAll(s[|pat|..], pat, rep);
        if c !in rep {
          assert c in rest;
          ReplaceAllChars(s[|pat|..], pat, rep, c);
          assert s == s[..|pat|] + s[|pat|..];
        }
      } else {
        var rest := ReplaceAll(s[1..], pat, rep);
        if c != s[0] {
          assert c in rest;
          ReplaceAllChars(s[1..], pat, rep, c);
          assert s == [s[0]] + s[1..];
        }
      }
    }
  }

  // ---------------------------------------------------------------------------
  // str.lstrip and str.lower

  /** Python's `s.lstrip(c)` for a one-character argument. */
  function LStrip(s: string, c: char): (r: string)
    ensures EndsWith(s, r)
    ensures r == [] || r[0] != c
    ensures forall i | 0 <= i < |s| - |r| :: s[i] == c
    decreases |s|
  {
    if s != [] && s[0] == c then LStrip(s[1..], c) else s
  }

  /** Stripping leading `c` leaves a suffix that does not start with `c` in place. */
  lemma {:induction false} LStripKeepsSuffix(s: string, c: char, t: string)
    requires EndsWith(s, t) && t != [] && t[0] != c
    ensures EndsWith(LStrip(s, c), t)
    decreases |s|
  {
    if s != [] && s[0] == c {
      assert |s| > |t|;
      assert s[1..][|s[1..]| - |t|..] == s[|s| - |t|..];
      LStripKeepsSuffix(s[1..], c, t);
    }
  }

  /** `str.lower()` on the ASCII letters; every other character is kept. */
  function LowerChar(c: char): char {
    if 'A' <= c <= 'Z' then (c as int + 32) as char else c
  }

  function Lower(s: string): (r: string)
    ensures |r| == |s|
  {
    seq(|s|, i requires 0 <= i < |s| => LowerChar(s[i]))
  }

  // ---------------------------------------------------------------------------
  // str.split and str.join on a one-character separator

  /**
    Python's `s.split(sep)`: the maximal runs between separators, empty runs
    included, so there is always one more part than separators.
  */
  function Split(s: string, sep: char): (parts: seq<string>)
    ensures |parts| >= 1
    ensures forall i | 0 <= i < |parts| :: sep !in parts[i]
    decreases |s|
  {
    if s == [] then [[]]
    else
      var init := Split(s[..|s| - 1], sep);
      var c := s[|s| - 1];
      if c == sep then init + [[]]
      else init[..|init| - 1] + [init[|init| - 1] + [c]]
  }

  /** Python's `sep.join(parts)`. */
  function JoinWith(parts: seq<string>, sep: char): string
    decreases |parts|
  {
    if parts == [] then []
    else if |parts| == 1 then parts[0]
    else JoinWith(parts[..|parts| - 1], sep) + [sep] + parts[|parts| - 1]
  }

  function Last<T>(xs: seq<T>): T
    requires xs != []
  {
    xs[|xs| - 1]
  }

  /** Joining the parts of a split gives the string back. */
  lemma {:induction false} JoinSplit(s: string, sep: char)
    ensures JoinWith(Split(s, sep), sep) == s
    decreases |s|
  {
    if s != [] {
      var s' := s[..|s| - 1];
      var c := s[|s| - 1];
      var init := Split(s', sep);
      JoinSplit(s', sep);
      assert s == s' + [c];
      if c == sep {
        JoinEmptyPart(init, sep);
      } else {
        JoinExtendLast(init, c, sep);
      }
    }
  }

  /** A new empty last part adds one separator. */
  lemma JoinEmptyPart(parts: seq<string>, sep: char)
    requires |parts| >= 1
    ensures JoinWith(parts + [[]], sep) == JoinWith(parts, sep) + [sep]
  {
    assert (parts + [[]])[..|parts|] == parts;
  }

  /** Extending the last part extends the join. */
  lemma JoinExtendLast(parts: seq<string>, c: char, sep: char)
    requires |parts| >= 1
    ensures JoinWith(parts[..|parts| - 1] + [parts[|parts| - 1] + [c]], sep) == JoinWith(parts, sep) + [c]
  {
    var ext := parts[..|parts| - 1] + [parts[|parts| - 1] + [c]];
    if |parts| > 1 {
      assert ext[..|ext| - 1] == parts[..|parts| - 1];
      assert JoinWith(parts, sep) == JoinWith(parts[..|parts| - 1], sep) + [sep] + parts[|parts| - 1];
    }
  }

  /** Joining a concatenation puts one separator between the two joins. */
  lemma {:induction false} JoinAppend(a: seq<string>, b: seq<string>, sep: char)
    requires |a| >= 1 && |b| >= 1
    ensures JoinWith(a + b, sep) == JoinWith(a, sep) + [sep] + JoinWith(b, sep)
    decreases |b|
  {
    var ab := a + b;
    assert ab[..|ab| - 1] == a + b[..|b| - 1];
    if |b| == 1 {
      assert a + b[..|b| - 1] == a;
    } else {
      JoinAppend(a, b[..|b| - 1], sep);
    }
  }

  /** Appending separator-free text extends the last part of a split. */
  lemma {:induction false} SplitAppendPlain(s: string, t: string, sep: char)
    requires sep !in t
    ensures var p := Split(s, sep);
            Split(s + t, sep) == p[..|p| - 1] + [Last(p) + t]
    decreases |t|
  {
    var p := Split(s, sep);
    if t == [] {
      assert s + t == s;
      assert Last(p) + t == Last(p);
      assert p == p[..|p| - 1] + [Last(p)];
    } else {
      var t' := t[..|t| - 1];
      var c := t[|t| - 1];
      SplitAppendPlain(s, t', sep);
      assert (s + t)[..|s + t| - 1] == s + t';
      assert (s + t)[|s + t| - 1] == c;
      assert c in t;
      var init := Split(s + t', sep);
      assert Split(s + t, sep) == init[..|init| - 1] + [init[|init| - 1] + [c]];
      assert init[..|init| - 1] == p[..|p| - 1];
      assert Last(p) + t' + [c] == Last(p) + t;
    }
  }

  /** A string without the separator splits into itself. */
  lemma SplitWithoutSeparator(s: string, sep: char)
    requires sep !in s
    ensures Split(s, sep) == [s]
  {
    SplitAppendPlain([], s, sep);
    assert [] + s == s;
  }

  /** A separator followed by separator-free text adds that text as a new last part. */
  lemma SplitAppendPart(s: string, t: string, sep: char)
    requires sep !in t
    ensures Split(s + [sep] + t, sep) == Split(s, sep) + [t]
  {
    var p := Split(s + [sep], sep);
    assert (s + [sep])[..|s + [sep]| - 1] == s;
    assert p == Split(s, sep) + [[]];
    SplitAppendPlain(s + [sep], t, sep);
    assert p[..|p| - 1] == Split(s, sep);
    assert Last(p) + t == t;
  }

  /** Splitting a join of separator-free parts gives the parts back. */
  lemma {:induction false} SplitJoin(parts: seq<string>, sep: char)
    requires |parts| >= 1
    requires forall i | 0 <= i < |parts| :: sep !in parts[i]
    ensures Split(JoinWith(parts, sep), sep) == parts
    decreases |parts|
  {
    if |parts| == 1 {
      SplitAppendPlain([], parts[0], sep);
      assert [] + parts[0] == parts[0];
    } else {
      var init := parts[..|parts| - 1];
      var x := JoinWith(init, sep);
      SplitJoin(init, sep);
      assert (x + [sep])[..|x + [sep]| - 1] == x;
      assert Split(x + [sep], sep) == init + [[]];
      SplitAppendPlain(x + [sep], Last(parts), sep);
      assert x + [sep] + Last(parts) == JoinWith(parts, sep);
      var q := init + [[]];
      assert q[..|q| - 1] == init;
      assert Last(q) + Last(parts) == Last(parts);
      assert parts == init + [Last(parts)];
    }
  }

  /** The last part of a split is a suffix of the string. */
  lemma {:induction false} LastPartIsSuffix(s: string, sep: char)
    ensures EndsWith(s, Last(Split(s, sep)))
    decreases |s|
  {
    if s != [] && s[|s| - 1] != sep {
      var front := s[..|s| - 1];
      LastPartIsSuffix(front, sep);
      var l := Last(Split(front, sep));
      assert Last(Split(s, sep)) == l + [s[|s| - 1]];
      assert s == front + [s[|s| - 1]];
      assert s[|s| - |l| - 1..] == front[|front| - |l|..] + [s[|s| - 1]];
    }
  }

  /** A separator-free suffix of a string is a suffix of its last part. */
  lemma {:induction false} LastPartEndsWith(s: string, t: string, sep: char)
    requires EndsWith(s, t) && sep !in t
    ensures EndsWith(Last(Split(s, sep)), t)
  {
    var s' := s[..|s| - |t|];
    assert s == s' + t;
    SplitAppendPlain(s', t, sep);
  }

  // ---------------------------------------------------------------------------
  // [i for i in xs if i]

  /** `a` is `b` with some elements left out, the rest kept in order. */
  predicate Subsequence<T(==)>(a: seq<T>, b: seq<T>)
    decreases |b|
  {
    a == [] || (b != [] && if a[0] == b[0] then Subsequence(a[1..], b[1..]) else Subsequence(a, b[1..]))
  }

  /** The comprehension `[x for x in xs if x]` over strings. */
  function NonEmptyOnly(xs: seq<string>): (r: seq<string>)
    ensures forall i | 0 <= i < |r| :: r[i] != []
    ensures Subsequence(r, xs)
    ensures |r| == |xs| - multiset(xs)[[]]
    decreases |xs|
  {
    if xs == [] then []
    else
      assert xs == [xs[0]] + xs[1..];
      if xs[0] == [] then NonEmptyOnly(xs[1..]) else [xs[0]] + NonEmptyOnly(xs[1..])
  }

  /** The comprehension distributes over concatenation. */
  lemma {:induction false} NonEmptyOnlyAppend(a: seq<string>, b: seq<string>)
    ensures NonEmptyOnly(a + b) == NonEmptyOnly(a) + NonEmptyOnly(b)
    decreases |a|
  {
    if a != [] {
      assert (a + b)[1..] == a[1..] + b;
      NonEmptyOnlyAppend(a[1..], b);
    } else {
      assert a + b == b;
    }
  }

  /** A list without empty strings passes the comprehension unchanged. */
  lemma {:induction false} NonEmptyOnlyKeepsNonEmpty(xs: seq<string>)
    requires forall i | 0 <= i < |xs| :: xs[i] != []
    ensures NonEmptyOnly(xs) == xs
    decreases |xs|
  {
    if xs != [] {
      NonEmptyOnlyKeepsNonEmpty(xs[1..]);
    }
  }

  /** An empty string between two runs of non-empty ones is the only thing dropped. */
  lemma NonEmptyOnlyGap(a: seq<string>, b: seq<string>)
    requires forall i | 0 <= i < |a| :: a[i] != []
    requires forall i | 0 <= i < |b| :: b[i] != []
    ensures NonEmptyOnly(a + [[]] + b) == a + b
  {
    NonEmptyOnlyAppend(a, [[]]);
    NonEmptyOnlyAppend(a + [[]], b);
    NonEmptyOnlyKeepsNonEmpty(a);
    NonEmptyOnlyKeepsNonEmpty(b);
    assert NonEmptyOnly([[]]) == [];
    assert a + [] == a;
  }

  /** The comprehension keeps exactly the non-empty elements. */
  lemma {:induction false} NonEmptyOnlyMembers(xs: seq<string>, x: string)
    ensures x in NonEmptyOnly(xs) <==> x in xs && x != []
    decreases |xs|
  {
    if xs != [] {
      NonEmptyOnlyMembers(xs[1..], x);
      assert xs == [xs[0]] + xs[1..];
    }
  }
}
