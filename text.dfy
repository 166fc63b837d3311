/**
 * The string operations of the Python standard library that the analyzer
 * scripts rely on, modelled on `seq<char>`: `str.startswith`, `str.endswith`
 * (also with a tuple of suffixes), the `in` test for substrings,
 * `str.replace`, `str.split('.')[0]`, and the POSIX forms of
 * `os.path.basename` and of the two-argument `os.path.join`.
 */
module Text {

  predicate StartsWith(s: string, prefix: string) {
    |prefix| <= |s| && s[..|prefix|] == prefix
  }

  predicate EndsWith(s: string, suffix: string) {
    |suffix| <= |s| && s[|s| - |suffix|..] == suffix
  }

  /** `s.endswith(tuple(suffixes))`: true iff some listed suffix ends s. */
  predicate EndsWithAny(s: string, suffixes: seq<string>) {
    exists i :: 0 <= i < |suffixes| && EndsWith(s, suffixes[i])
  }

  /** frag occurs in s starting at position i. */
  predicate OccursAt(s: string, frag: string, i: int) {
    0 <= i && i + |frag| <= |s| && s[i..i + |frag|] == frag
  }

  /** Python's `frag in s` for strings. */
  predicate Contains(s: string, frag: string) {
    exists i :: 0 <= i <= |s| && OccursAt(s, frag, i)
  }

  /**
   * Python's `s.replace(pat, rep)`: every non-overlapping occurrence of pat,
   * found scanning left to right, is replaced by rep. With an empty pattern
   * Python inserts rep before every character and at the end.
   */
  function Replace(s: string, pat: string, rep: string): string {
    if pat == [] then InsertEverywhere(s, rep) else ReplaceFrom(s, pat, rep)
  }

  function InsertEverywhere(s: string, rep: string): string {
    if s == [] then rep else rep + [s[0]] + InsertEverywhere(s[1..], rep)
  }

  function ReplaceFrom(s: string, pat: string, rep: string): string
    requires pat != []
    decreases |s|
  {
    if s == [] then []
    else if StartsWith(s, pat) then rep + ReplaceFrom(s[|pat|..], pat, rep)
    else [s[0]] + ReplaceFrom(s[1..], pat, rep)
  }

  /** `s.split('.')[0]`: the text before the first '.', or all of s. */
  function BeforeFirstDot(s: string): (r: string)
    ensures |r| <= |s| && r == s[..|r|]
    ensures '.' !in r
    ensures |r| < |s| ==> s[|r|] == '.'
  {
    if s == [] || s[0] == '.' then [] else [s[0]] + BeforeFirstDot(s[1..])
  }

  /** POSIX `os.path.basename(path)`: the text after the last '/'. */
  function Basename(path: string): (r: string)
    ensures |r| <= |path| && r == path[|path| - |r|..]
    ensures '/' !in r
    ensures |r| < |path| ==> path[|path| - |r| - 1] == '/'
  {
    if path == [] || path[|path| - 1] == '/' then []
    else Basename(path[..|path| - 1]) + [path[|path| - 1]]
  }

  /** POSIX `os.path.join(root, name)` for one name. */
  function Join(root: string, name: string): string {
    if StartsWith(name, "/") then name
    else if root == [] || EndsWith(root, "/") then root + name
    else root + "/" + name
  }

  // ---------------------------------------------------------------------------
  // Properties of Replace when the pattern is removed (rep == "")

  /** Removing a word never makes a string longer. */
  lemma {:induction false} RemoveNoLonger(s: string, pat: string)
    ensures |Replace(s, pat, "")| <= |s|
  {
    if pat != [] {
      RemoveFromNoLonger(s, pat);
    } else {
      InsertNothing(s);
    }
  }

  lemma {:induction false} InsertNothing(s: string)
    ensures InsertEverywhere(s, "") == s
  {
    if s != [] {
      InsertNothing(s[1..]);
      assert s == [s[0]] + s[1..];
    }
  }

  lemma {:induction false} RemoveFromNoLonger(s: string, pat: string)
    requires pat != []
    ensures |ReplaceFrom(s, pat, "")| <= |s|
    decreases |s|
  {
    if s != [] {
      if StartsWith(s, pat) {
        RemoveFromNoLonger(s[|pat|..], pat);
      } else {
        RemoveFromNoLonger(s[1..], pat);
      }
    }
  }

  /** Without an occurrence of pat, replacing it changes nothing. */
  lemma {:induction false} ReplaceAbsent(s: string, pat: string, rep: string)
    requires pat != [] && !Contains(s, pat)
    ensures Replace(s, pat, rep) == s
    decreases |s|
  {
    if s != [] {
      assert !OccursAt(s, pat, 0);
      assert !StartsWith(s, pat);
      forall i ensures !OccursAt(s[1..], pat, i) {
        if OccursAt(s[1..], pat, i) {
          assert s[i + 1..i + 1 + |pat|] == s[1..][i..i + |pat|];
          assert OccursAt(s, pat, i + 1);
        }
      }
      ReplaceAbsent(s[1..], pat, rep);
      assert s == [s[0]] + s[1..];
    }
  }

  /** With an occurrence of pat, removing it makes the string strictly shorter. */
  lemma {:induction false} RemovePresentShrinks(s: string, pat: string, i: int)
    requires pat != [] && OccursAt(s, pat, i)
    ensures |Replace(s, pat, "")| < |s|
    decreases |s|
  {
    if StartsWith(s, pat) {
      RemoveFromNoLonger(s[|pat|..], pat);
    } else {
      assert i != 0;
      assert s[1..][i - 1..i - 1 + |pat|] == s[i..i + |pat|];
      RemovePresentShrinks(s[1..], pat, i - 1);
    }
  }

  /**
   * Removing a non-empty word leaves the string unchanged exactly when the
   * word does not occur in it.
   */
  lemma RemoveUnchangedIff(s: string, pat: string)
    requires pat != []
    ensures Replace(s, pat, "") == s <==> !Contains(s, pat)
  {
    if Contains(s, pat) {
      var i :| OccursAt(s, pat, i);
      RemovePresentShrinks(s, pat, i);
    } else {
      ReplaceAbsent(s, pat, "");
    }
  }

  // ---------------------------------------------------------------------------
  // Evaluation steps, for working out concrete names

  /** A prefix at none of whose positions pat starts is copied unchanged. */
  lemma {:induction false} ReplacePlainPrefix(prefix: string, rest: string, pat: string, rep: string)
    requires pat != []
    requires forall i :: 0 <= i < |prefix| ==> !OccursAt(prefix + rest, pat, i)
    ensures ReplaceFrom(prefix + rest, pat, rep) == prefix + ReplaceFrom(rest, pat, rep)
    decreases |prefix|
  {
    if prefix != [] {
      var s := prefix + rest;
      var p' := prefix[1..];
      assert !OccursAt(s, pat, 0);
      assert !StartsWith(s, pat) by {
        if |pat| <= |s| { assert s[..|pat|] == s[0..|pat|]; }
      }
      assert ReplaceFrom(s, pat, rep) == [s[0]] + ReplaceFrom(s[1..], pat, rep);
      assert s[1..] == p' + rest;
      forall i | 0 <= i < |p'| ensures !OccursAt(p' + rest, pat, i) {
        assert !OccursAt(s, pat, i + 1);
      }
      ReplacePlainPrefix(p', rest, pat, rep);
      assert s[0] == prefix[0];
      assert prefix == [prefix[0]] + p';
      assert [prefix[0]] + (p' + ReplaceFrom(rest, pat, rep)) == prefix + ReplaceFrom(rest, pat, rep);
    } else {
      assert prefix + rest == rest;
    }
  }

  /** A word whose first character does not occur in s does not occur in s. */
  lemma FirstCharAbsent(s: string, pat: string)
    requires pat != [] && pat[0] !in s
    ensures !Contains(s, pat)
  {
    forall i | 0 <= i <= |s| ensures !OccursAt(s, pat, i) {
      if i + |pat| <= |s| {
        assert s[i..i + |pat|][0] == s[i];
      }
    }
  }

  /**
   * A word that does not start s, and whose first character does not occur
   * after the first position of s, does not occur in s.
   */
  lemma OnlyCandidateAtFront(s: string, pat: string)
    requires pat != [] && s != [] && !StartsWith(s, pat) && pat[0] !in s[1..]
    ensures !Contains(s, pat)
  {
    forall i | 0 <= i <= |s| ensures !OccursAt(s, pat, i) {
      if i == 0 {
        if |pat| <= |s| { assert s[..|pat|] == s[0..|pat|]; }
      } else if i + |pat| <= |s| {
        assert s[i..i + |pat|][0] == s[1..][i - 1];
      }
    }
  }

  /** An occurrence at the front is replaced and the scan resumes after it. */
  lemma ReplaceAtFront(pat: string, rest: string, rep: string)
    requires pat != []
    ensures ReplaceFrom(pat + rest, pat, rep) == rep + ReplaceFrom(rest, pat, rep)
  {
    assert (pat + rest)[..|pat|] == pat;
    assert (pat + rest)[|pat|..] == rest;
  }

  /** Basename of a path ending in "/" + name, where name has no '/'. */
  lemma {:induction false} BasenameAfterSlash(dir: string, name: string)
    requires '/' !in name
    ensures Basename(dir + "/" + name) == name
    decreases |name|
  {
    var s := dir + "/" + name;
    if name != [] {
      var n' := name[..|name| - 1];
      assert s[..|s| - 1] == dir + "/" + n';
      assert s[|s| - 1] == name[|name| - 1];
      BasenameAfterSlash(dir, n');
      assert name == n' + [name[|name| - 1]];
    }
  }

  /** The basename of a joined path is the name that was joined. */
  lemma BasenameOfJoin(root: string, name: string)
    requires '/' !in name
    ensures Basename(Join(root, name)) == name
  {
    assert !StartsWith(name, "/") by {
      if name != [] {
        assert name[..1][0] == name[0];
      }
    }
    if root == [] {
      BasenameNoSlash(name);
    } else if EndsWith(root, "/") {
      var dir := root[..|root| - 1];
      assert root == dir + "/";
      BasenameAfterSlash(dir, name);
    } else {
      BasenameAfterSlash(root, name);
    }
  }

  /** A path without '/' is its own basename. */
  lemma {:induction false} BasenameNoSlash(path: string)
    requires '/' !in path
    ensures Basename(path) == path
    decreases |path|
  {
    if path != [] {
      BasenameNoSlash(path[..|path| - 1]);
      assert path == path[..|path| - 1] + [path[|path| - 1]];
    }
  }

  /** The text before the first '.' of stem + ext, where ext starts with '.'. */
  lemma {:induction false} BeforeDotOfStem(stem: string, ext: string)
    requires '.' !in stem && ext != [] && ext[0] == '.'
    ensures BeforeFirstDot(stem + ext) == stem
    decreases |stem|
  {
    if stem == [] {
      assert (stem + ext)[0] == '.';
    } else {
      assert (stem + ext)[1..] == stem[1..] + ext;
      BeforeDotOfStem(stem[1..], ext);
      assert stem == [stem[0]] + stem[1..];
    }
  }
}
