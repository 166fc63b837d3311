/**
 * File discovery: `find_project_files` of ai-analyzer/main.py walks a
 * directory tree and keeps the files whose names end with one of the target
 * extensions, joined to the directory they were found in.
 *
 * The directory walk itself is input: one WalkStep per directory that
 * `os.walk` yields, in the order it yields them, with the file names listed
 * in that directory (the sub-directory names play no part in the filter).
 */
module Discovery {
  import opened Text
  import opened Seqs

  /** `TARGET_EXTENSIONS` of main.py; the GUI scripts pass the same list. */
  const TargetExtensions: seq<string> := [".java", ".jsp", ".js", ".xml"]

  /** One `(root, dirs, files)` triple produced by `os.walk`, without dirs. */
  datatype WalkStep = WalkStep(root: string, files: seq<string>)

  /** A walked file: the directory it was found in and its name. */
  type Entry = (string, string)

  /** The (root, filename) pairs of one directory, in listing order. */
  function DirEntries(root: string, files: seq<string>): (r: seq<Entry>)
    ensures |r| == |files|
    ensures forall i :: 0 <= i < |files| ==> r[i] == (root, files[i])
  {
    if files == [] then []
    else DirEntries(root, files[..|files| - 1]) + [(root, files[|files| - 1])]
  }

  /** Every walked file as a (root, filename) pair, in walk order. */
  function Entries(walk: seq<WalkStep>): seq<Entry> {
    if walk == [] then []
    else
      var step := walk[|walk| - 1];
      Entries(walk[..|walk| - 1]) + DirEntries(step.root, step.files)
  }

  /** The walked entries that pass the extension test, in walk order. */
  function Kept(entries: seq<Entry>, extensions: seq<string>): seq<Entry> {
    Filter(entries, (e: Entry) => EndsWithAny(e.1, extensions))
  }

  /** The full paths of the walked entries that pass the extension test. */
  function FoundPaths(entries: seq<Entry>, extensions: seq<string>): seq<string> {
    if entries == [] then []
    else
      var e := entries[|entries| - 1];
      FoundPaths(entries[..|entries| - 1], extensions)
        + (if EndsWithAny(e.1, extensions) then [Join(e.0, e.1)] else [])
  }

  /**
   * `find_project_files(target_dir, extensions)`: the nested loops over the
   * walked directories and their files, appending the joined path of every
   * file that passes the extension test.
   */
  method FindProjectFiles(walk: seq<WalkStep>, extensions: seq<string>) returns (found: seq<string>)
    ensures found == FoundPaths(Entries(walk), extensions)
    ensures |found| == |Kept(Entries(walk), extensions)|
    ensures forall i :: 0 <= i < |found| ==>
              found[i] == Join(Kept(Entries(walk), extensions)[i].0, Kept(Entries(walk), extensions)[i].1)
  {
    found := [];
    var d := 0;
    while d < |walk|
      invariant 0 <= d <= |walk|
      invariant found == FoundPaths(Entries(walk[..d]), extensions)
    {
      var root, files := walk[d].root, walk[d].files;
      ghost var before := Entries(walk[..d]);
      var f := 0;
      assert before + DirEntries(root, files[..0]) == before;
      while f < |files|
        invariant 0 <= f <= |files|
        invariant found == FoundPaths(before + DirEntries(root, files[..f]), extensions)
      {
        var name := files[f];
        FoundStep(before, root, files, f, extensions);
        if EndsWithAny(name, extensions) {
          found := found + [Join(root, name)];
        }
        f := f + 1;
      }
      assert files[..f] == files;
      EntriesSnoc(walk, d);
      d := d + 1;
    }
    assert walk[..d] == walk;
    FoundPathsJoinKept(Entries(walk), extensions);
  }

  /** One more file of the directory being listed: its path is appended iff it passes. */
  lemma FoundStep(before: seq<Entry>, root: string, files: seq<string>, f: nat, extensions: seq<string>)
    requires f < |files|
    ensures FoundPaths(before + DirEntries(root, files[..f + 1]), extensions)
      == FoundPaths(before + DirEntries(root, files[..f]), extensions)
         + (if EndsWithAny(files[f], extensions) then [Join(root, files[f])] else [])
  {
    assert files[..f + 1][..f] == files[..f];
    var prev := before + DirEntries(root, files[..f]);
    var next := before + DirEntries(root, files[..f + 1]);
    assert next == prev + [(root, files[f])];
    assert next[..|next| - 1] == prev;
  }

  /** One more walked directory appends its entries. */
  lemma EntriesSnoc(walk: seq<WalkStep>, d: nat)
    requires d < |walk|
    ensures Entries(walk[..d + 1]) == Entries(walk[..d]) + DirEntries(walk[d].root, walk[d].files)
  {
    assert walk[..d + 1][..d] == walk[..d];
  }

  // ---------------------------------------------------------------------------
  // Properties

  /**
   * A file name passes the test with the target list iff it ends with
   * `.java`, `.jsp`, `.js` or `.xml`.
   */
  lemma TargetExtensionIff(name: string)
    ensures EndsWithAny(name, TargetExtensions) <==>
      EndsWith(name, ".java") || EndsWith(name, ".jsp")
      || EndsWith(name, ".js") || EndsWith(name, ".xml")
  {
    if EndsWith(name, ".java") { assert EndsWith(name, TargetExtensions[0]); }
    if EndsWith(name, ".jsp") { assert EndsWith(name, TargetExtensions[1]); }
    if EndsWith(name, ".js") { assert EndsWith(name, TargetExtensions[2]); }
    if EndsWith(name, ".xml") { assert EndsWith(name, TargetExtensions[3]); }
  }

  /** `a.json` is rejected although it starts like `.js`; `a.js` is kept. */
  lemma TargetExtensionExamples()
    ensures !EndsWithAny("a.json", TargetExtensions)
    ensures EndsWithAny("a.js", TargetExtensions)
    ensures EndsWithAny("UserMapper.xml", TargetExtensions)
    ensures EndsWithAny("list.jsp", TargetExtensions)
  {
    TargetExtensionIff("a.json");
    assert "a.json"[6 - 5..] == ".json";
    assert "a.json"[6 - 4..] == "json";
    assert "a.json"[6 - 3..] == "son";
    TargetExtensionIff("a.js");
    assert "a.js"[4 - 3..] == ".js";
    TargetExtensionIff("UserMapper.xml");
    assert "UserMapper.xml"[14 - 4..] == ".xml";
    TargetExtensionIff("list.jsp");
    assert "list.jsp"[8 - 4..] == ".jsp";
  }

  /** The found paths are the kept entries, each joined to its root. */
  lemma {:induction false} FoundPathsJoinKept(entries: seq<Entry>, extensions: seq<string>)
    ensures |FoundPaths(entries, extensions)| == |Kept(entries, extensions)|
    ensures forall i :: 0 <= i < |FoundPaths(entries, extensions)| ==>
              FoundPaths(entries, extensions)[i]
                == Join(Kept(entries, extensions)[i].0, Kept(entries, extensions)[i].1)
    decreases |entries|
  {
    if entries != [] {
      FoundPathsJoinKept(entries[..|entries| - 1], extensions);
    }
  }

  /**
   * The kept entries are a subsequence of the walk, in walk order, holding
   * exactly the walked entries whose name passes the extension test.
   */
  lemma KeptSpec(walk: seq<WalkStep>, extensions: seq<string>)
    ensures IsSubsequence(Kept(Entries(walk), extensions), Entries(walk))
    ensures forall e :: e in Kept(Entries(walk), extensions) <==>
              e in Entries(walk) && EndsWithAny(e.1, extensions)
  {
    var p := (e: Entry) => EndsWithAny(e.1, extensions);
    FilterIsSubsequence(Entries(walk), p);
    forall e ensures e in Kept(Entries(walk), extensions) <==> e in Entries(walk) && EndsWithAny(e.1, extensions) {
      FilterMembers(Entries(walk), p, e);
    }
  }

  /** Walking more directories only appends to what was found before. */
  lemma {:induction false} FoundPathsAppend(a: seq<Entry>, b: seq<Entry>, extensions: seq<string>)
    ensures FoundPaths(a + b, extensions) == FoundPaths(a, extensions) + FoundPaths(b, extensions)
    decreases |b|
  {
    if b == [] {
      assert a + b == a;
    } else {
      assert (a + b)[..|a + b| - 1] == a + b[..|b| - 1];
      FoundPathsAppend(a, b[..|b| - 1], extensions);
    }
  }

  /** Every walked file with a target extension is found, under its joined path. */
  lemma FoundEveryWanted(walk: seq<WalkStep>, extensions: seq<string>, d: nat, f: nat)
    requires d < |walk| && f < |walk[d].files|
    requires EndsWithAny(walk[d].files[f], extensions)
    ensures Join(walk[d].root, walk[d].files[f]) in FoundPaths(Entries(walk), extensions)
  {
    var e := (walk[d].root, walk[d].files[f]);
    EntriesContains(walk, d, f);
    KeptSpec(walk, extensions);
    var kept := Kept(Entries(walk), extensions);
    assert e in kept;
    var k :| 0 <= k < |kept| && kept[k] == e;
    FoundPathsJoinKept(Entries(walk), extensions);
    assert FoundPaths(Entries(walk), extensions)[k] == Join(e.0, e.1);
  }

  /** Every found path is the joined path of a walked file with a target extension. */
  lemma FoundOnlyWanted(walk: seq<WalkStep>, extensions: seq<string>, i: nat)
    requires i < |FoundPaths(Entries(walk), extensions)|
    ensures exists e :: e in Entries(walk) && EndsWithAny(e.1, extensions)
              && FoundPaths(Entries(walk), extensions)[i] == Join(e.0, e.1)
  {
    FoundPathsJoinKept(Entries(walk), extensions);
    KeptSpec(walk, extensions);
    var e := Kept(Entries(walk), extensions)[i];
    assert e in Kept(Entries(walk), extensions);
  }

  lemma {:induction false} EntriesContains(walk: seq<WalkStep>, d: nat, f: nat)
    requires d < |walk| && f < |walk[d].files|
    ensures (walk[d].root, walk[d].files[f]) in Entries(walk)
    decreases |walk|
  {
    var w' := walk[..|walk| - 1];
    var last := walk[|walk| - 1];
    if d == |walk| - 1 {
      assert DirEntries(last.root, last.files)[f] == (walk[d].root, walk[d].files[f]);
    } else {
      EntriesContains(w', d, f);
    }
  }
}
