/**
 * Greedy root/extension split of a file name (rene/rene.py greedyext). Unlike
 * os.path.splitext, every extension after the root belongs to the extension:
 * name.tar.gzip splits as name and .tar.gzip. The root is the leading dots
 * plus the first run of non-dot characters; a name with no non-dot
 * character has neither root nor extension, and a lone trailing dot is
 * dropped.
 */
module ExtSplit {

  /** The first position at or after i that does not hold a dot. */
  function SkipDots(s: string, i: nat): (j: nat)
    requires i <= |s|
    ensures i <= j <= |s|
    ensures forall k | i <= k < j :: s[k] == '.'
    ensures j < |s| ==> s[j] != '.'
    decreases |s| - i
  {
    if i < |s| && s[i] == '.' then SkipDots(s, i + 1) else i
  }

  /** The first position at or after i that holds a dot, or the end. */
  function SkipNonDots(s: string, i: nat): (j: nat)
    requires i <= |s|
    ensures i <= j <= |s|
    ensures forall k | i <= k < j :: s[k] != '.'
    ensures j < |s| ==> s[j] == '.'
    decreases |s| - i
  {
    if i < |s| && s[i] != '.' then SkipNonDots(s, i + 1) else i
  }

  /** Where the root of s ends: after its leading dots and the non-dot run that follows. */
  function RootEnd(s: string): (e: nat)
    ensures e <= |s|
  {
    SkipNonDots(s, SkipDots(s, 0))
  }

  /** A root: leading dots, then a non-empty run of non-dots, and nothing else. */
  predicate IsRoot(r: string)
  {
    SkipDots(r, 0) < |r| && RootEnd(r) == |r|
  }

  /** The extension is empty or a dot followed by at least one character. */
  predicate IsExt(e: string)
  {
    e == [] || (2 <= |e| && e[0] == '.')
  }

  /** Splits a name into (root, extension). */
  function GreedyExt(s: string): (parts: (string, string))
    ensures parts.0 == [] <==> forall i | 0 <= i < |s| :: s[i] == '.'
    ensures parts.0 == [] ==> parts.1 == []
    ensures parts.0 != [] ==> IsRoot(parts.0)
    ensures IsExt(parts.1)
    ensures parts.0 != [] ==> parts.0 + parts.1 == s || parts.0 + parts.1 + "." == s
    // The root takes every non-dot character up to the first dot that follows one.
    ensures parts.0 != [] && |parts.0| < |s| ==> s[|parts.0|] == '.'
  {
    var d := SkipDots(s, 0);
    var e := RootEnd(s);
    if e == d then
      ([], [])
    else
      var rest := s[e..];
      RootIsRoot(s);
      assert s == s[..e] + rest;
      (s[..e], if 2 <= |rest| then rest else [])
  }

  /** The prefix of a name up to its root end is a root. */
  lemma RootIsRoot(s: string)
    requires SkipDots(s, 0) < RootEnd(s)
    ensures IsRoot(s[..RootEnd(s)])
  {
    var e := RootEnd(s);
    SkipDotsPrefix(s, e, 0);
    SkipNonDotsPrefix(s, e, SkipDots(s, 0));
  }

  /** SkipDots only looks as far as the first non-dot. */
  lemma {:induction false} SkipDotsPrefix(s: string, n: nat, i: nat)
    requires i <= n <= |s| && SkipDots(s, i) < n
    ensures SkipDots(s[..n], i) == SkipDots(s, i)
    decreases n - i
  {
    assert s[..n][i] == s[i];
    if s[i] == '.' {
      SkipDotsPrefix(s, n, i + 1);
    }
  }

  /** SkipNonDots stops at the same place in any prefix that reaches it. */
  lemma {:induction false} SkipNonDotsPrefix(s: string, n: nat, i: nat)
    requires i <= n <= |s| && SkipNonDots(s, i) <= n
    ensures SkipNonDots(s[..n], i) == SkipNonDots(s, i)
    decreases n - i
  {
    if i < n {
      assert s[..n][i] == s[i];
      if s[i] != '.' {
        SkipNonDotsPrefix(s, n, i + 1);
      }
    }
  }

  /** Appending text keeps SkipDots where it stopped inside the name. */
  lemma {:induction false} SkipDotsAppend(a: string, b: string, i: nat)
    requires i <= |a| && SkipDots(a, i) < |a|
    ensures SkipDots(a + b, i) == SkipDots(a, i)
    decreases |a| - i
  {
    assert (a + b)[i] == a[i];
    if a[i] == '.' {
      SkipDotsAppend(a, b, i + 1);
    }
  }

  /** Appending nothing or a dot keeps SkipNonDots at the end of a root. */
  lemma {:induction false} SkipNonDotsAppend(a: string, b: string, i: nat)
    requires i <= |a| && SkipNonDots(a, i) == |a|
    requires b == [] || b[0] == '.'
    ensures SkipNonDots(a + b, i) == |a|
    decreases |a| - i
  {
    if i < |a| {
      assert (a + b)[i] == a[i];
      SkipNonDotsAppend(a, b, i + 1);
    } else if b != [] {
      assert (a + b)[i] == b[0];
    }
  }

  /** A name that is already a root followed by an extension splits into exactly those. */
  lemma GreedyExtOfParts(root: string, ext: string)
    requires IsRoot(root) && IsExt(ext)
    ensures GreedyExt(root + ext) == (root, ext)
  {
    var s := root + ext;
    var d := SkipDots(root, 0);
    SkipDotsAppend(root, ext, 0);
    SkipNonDotsAppend(root, ext, d);
    assert s[..|root|] == root && s[|root|..] == ext;
  }

  /** Splitting is idempotent: the root and extension of root + extension are unchanged. */
  lemma GreedyExtIdempotent(s: string)
    ensures var (root, ext) := GreedyExt(s);
      root != [] ==> GreedyExt(root + ext) == (root, ext)
  {
    var (root, ext) := GreedyExt(s);
    if root != [] {
      GreedyExtOfParts(root, ext);
    }
  }

  lemma GreedyExtExamples()
    ensures GreedyExt("name.tar.gzip") == ("name", ".tar.gzip")
    ensures GreedyExt(".bashx") == (".bashx", "")
  {
    assert IsRoot("name");
    GreedyExtOfParts("name", ".tar.gzip");
    assert "name" + ".tar.gzip" == "name.tar.gzip";
    assert IsRoot(".bashx");
    GreedyExtOfParts(".bashx", "");
    assert ".bashx" + "" == ".bashx";
  }

  lemma GreedyExtDotsExamples()
    ensures GreedyExt("...") == ("", "")
    ensures GreedyExt("a.") == ("a", "")
  {
    assert "a."[..1] == "a";
  }
}
