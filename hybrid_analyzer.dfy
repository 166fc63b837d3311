/**
 * ai-analyzer/hybrid_analyzer.py: the folder analysis (its own copies of
 * `find_project_files` and `group_files_by_feature`) and the file list of
 * the "selected files" tab.
 *
 * The file list is the contents of a Tk `Listbox`. While the list is fresh
 * or cleared it shows two placeholder lines; `drop_files` removes them when
 * the first line still holds the drop hint, `add_files` never does, and
 * `start_file_analysis` skips every line holding either hint fragment.
 */
module HybridAnalyzer {
  import opened Text
  import opened Seqs
  import Discovery
  import Grouping

  // ---------------------------------------------------------------------------
  // Folder analysis

  /** The nested `find_project_files` of `start_folder_analysis_logic`. */
  method FindProjectFiles(walk: seq<Discovery.WalkStep>, extensions: seq<string>) returns (found: seq<string>)
    ensures found == Discovery.FoundPaths(Discovery.Entries(walk), extensions)
    ensures IsSubsequence(Discovery.Kept(Discovery.Entries(walk), extensions), Discovery.Entries(walk))
    ensures forall e :: e in Discovery.Kept(Discovery.Entries(walk), extensions) <==>
              e in Discovery.Entries(walk) && EndsWithAny(e.1, extensions)
    ensures |found| == |Discovery.Kept(Discovery.Entries(walk), extensions)|
    ensures forall i :: 0 <= i < |found| ==>
              found[i] == Join(Discovery.Kept(Discovery.Entries(walk), extensions)[i].0,
                               Discovery.Kept(Discovery.Entries(walk), extensions)[i].1)
  {
    found := Discovery.FindProjectFiles(walk, extensions);
    Discovery.KeptSpec(walk, extensions);
  }

  /** The nested `group_files_by_feature` of `start_folder_analysis_logic`. */
  method GroupFilesByFeature(files: seq<string>) returns (g: Grouping.FeatureGroups)
    ensures g.order == Distinct(Grouping.Features(files))
    ensures forall k :: k in g.lists <==> k in g.order
    ensures forall k :: k in g.lists ==> g.lists[k] == Grouping.Members(files, k)
    ensures forall k :: k in g.lists ==> IsSubsequence(g.lists[k], files)
    ensures Grouping.GroupedCount(g.order, files) == |files|
    ensures |g.order| <= |files|
  {
    g := Grouping.GroupFilesByFeature(files);
    forall k | k in g.lists ensures IsSubsequence(g.lists[k], files) {
      Grouping.GroupKeepsOrder(files, k);
    }
  }

  // ---------------------------------------------------------------------------
  // The file list

  /** The fragment `drop_files` looks for in the first line. */
  const DropHint: string := "이곳에 파일을"

  /** The fragment of the second placeholder line. */
  const AddHint: string := "'파일 추가' 버튼을"

  /** The two lines shown in a fresh or cleared list. */
  const Placeholders: seq<string> := ["이곳에 파일을 드래그 앤 드롭 하거나,", "'파일 추가' 버튼을 눌러 선택하세요."]

  /** `file_listbox.get(0)`: the first line, or "" when the list is empty. */
  function FirstItem(items: seq<string>): string {
    if items == [] then "" else items[0]
  }

  /** The test of `drop_files`: the first line holds the drop hint. */
  predicate ShowsHint(items: seq<string>) {
    Contains(FirstItem(items), DropHint)
  }

  /** A line that `start_file_analysis` passes on: it holds neither hint fragment. */
  predicate IsRealFile(item: string) {
    !Contains(item, DropHint) && !Contains(item, AddHint)
  }

  /** The list after inserting, one by one, each path not yet in it. */
  function WithAdded(items: seq<string>, paths: seq<string>): seq<string> {
    items + Unseen(items, paths)
  }

  /** The list after a drop: cleared first if it shows the hint. */
  function AfterDrop(items: seq<string>, dropped: seq<string>): seq<string> {
    WithAdded(if ShowsHint(items) then [] else items, dropped)
  }

  /** The list comprehension of `start_file_analysis`. */
  function FilesToAnalyze(items: seq<string>): seq<string> {
    Filter(items, (item: string) => IsRealFile(item))
  }

  /** What `start_file_analysis` does: show an error, or start the worker on these files. */
  datatype Launch = NoFilesToAnalyze | AnalysisThread(files: seq<string>)

  /** The application window, reduced to the lines of its file list. */
  class App {
    var fileList: seq<string>

    /** No line is listed twice: every insertion checks the list first. */
    ghost predicate Valid()
      reads this
    {
      NoDup(fileList)
    }

    /** `create_file_tab_widgets` fills the new list with the placeholders. */
    constructor ()
      ensures Valid()
      ensures fileList == Placeholders
    {
      fileList := Placeholders;
    }

    /**
     * `drop_files(event)`, with the dropped paths already split out of
     * `event.data`.
     */
    method DropFiles(dropped: seq<string>)
      requires Valid()
      modifies this
      ensures Valid()
      ensures fileList == AfterDrop(old(fileList), dropped)
    {
      if Contains(FirstItem(fileList), DropHint) {
        fileList := [];
      }
      InsertMissing(dropped);
    }

    /** `add_files()`, with the paths chosen in the file dialog as input. */
    method AddFiles(chosen: seq<string>)
      requires Valid()
      modifies this
      ensures Valid()
      ensures fileList == WithAdded(old(fileList), chosen)
    {
      InsertMissing(chosen);
    }

    /**
     * The loop that `drop_files` and `add_files` both run: insert each path
     * at the end unless the list already holds it.
     */
    method InsertMissing(paths: seq<string>)
      requires Valid()
      modifies this
      ensures Valid()
      ensures fileList == old(fileList) + Unseen(old(fileList), paths)
    {
      ghost var start := fileList;
      var i := 0;
      while i < |paths|
        invariant 0 <= i <= |paths|
        invariant fileList == start + Unseen(start, paths[..i])
      {
        var path := paths[i];
        assert paths[..i + 1][..i] == paths[..i];
        if path !in fileList {
          fileList := fileList + [path];
        }
        i := i + 1;
      }
      assert paths[..i] == paths;
      UnseenKeepsNoDup(start, paths);
    }

    /**
     * `remove_files()`: delete the selected lines, highest index first, so
     * that the indices still to be deleted keep pointing at the same lines.
     */
    method RemoveFiles(selected: set<nat>)
      requires Valid()
      requires forall i :: i in selected ==> i < |fileList|
      modifies this
      ensures Valid()
      ensures fileList == Without(old(fileList), selected)
      ensures |fileList| == |old(fileList)| - |selected|
      ensures forall i :: 0 <= i < |old(fileList)| ==>
                (old(fileList)[i] in fileList <==> i !in selected)
    {
      WithoutSpec(fileList, selected);
      fileList := DeleteDescending(fileList, selected);
    }

    /** `clear_file_list()`: back to the two placeholder lines. */
    method ClearFileList()
      modifies this
      ensures Valid()
      ensures fileList == Placeholders
    {
      fileList := [];
      fileList := fileList + [Placeholders[0]];
      fileList := fileList + [Placeholders[1]];
    }

    /**
     * `start_file_analysis()`: the lines holding neither hint go, in list
     * order, to a worker; when there are none an error is shown instead.
     */
    method StartFileAnalysis() returns (launch: Launch)
      ensures launch == NoFilesToAnalyze <==>
                forall item :: item in fileList ==> !IsRealFile(item)
      ensures launch.AnalysisThread? ==>
                launch.files == FilesToAnalyze(fileList)
                && launch.files != []
                && IsSubsequence(launch.files, fileList)
                && forall f :: f in launch.files <==> f in fileList && IsRealFile(f)
    {
      var files := FilesToAnalyze(fileList);
      FilesToAnalyzeSpec(fileList);
      if files == [] {
        launch := NoFilesToAnalyze;
      } else {
        launch := AnalysisThread(files);
      }
    }
  }

  /**
   * The loop of `remove_files`, over `sorted(selected, reverse=True)`: each
   * step deletes the highest index not yet deleted.
   */
  method DeleteDescending(items: seq<string>, selected: set<nat>) returns (r: seq<string>)
    requires forall i :: i in selected ==> i < |items|
    ensures r == Without(items, selected)
  {
    r := items;
    var pending := selected;
    ghost var done: set<nat> := {};
    KeepAllBelow(items, done, |items|);
    assert items[..|items|] == items;
    while pending != {}
      invariant pending <= selected && done == selected - pending
      invariant forall p, d :: p in pending && d in done ==> p < d
      invariant r == Keep(items, done, |items|)
      decreases |pending|
    {
      HasMax(pending, |items|);
      var i :| i in pending && forall p :: p in pending ==> p <= i;
      DeleteHighestPending(items, done, pending, i);
      r := DeleteAt(r, i);
      pending := pending - {i};
      done := done + {i};
    }
    assert done == selected;
  }

  // ---------------------------------------------------------------------------
  // Properties of the file list

  /** Both placeholder lines hold a hint, and the first one the drop hint. */
  lemma PlaceholdersHoldHints()
    ensures ShowsHint(Placeholders)
    ensures !IsRealFile(Placeholders[0]) && !IsRealFile(Placeholders[1])
  {
    assert OccursAt(Placeholders[0], DropHint, 0);
    assert OccursAt(Placeholders[1], AddHint, 0);
  }

  /** A fresh or cleared list starts no analysis. */
  lemma PlaceholdersAnalyzeNothing()
    ensures FilesToAnalyze(Placeholders) == []
  {
    PlaceholdersHoldHints();
    FilterNone(Placeholders, (item: string) => IsRealFile(item));
  }

  /**
   * The analysed files are a subsequence of the list holding exactly the
   * lines with neither hint fragment.
   */
  lemma FilesToAnalyzeSpec(items: seq<string>)
    ensures IsSubsequence(FilesToAnalyze(items), items)
    ensures forall f :: f in FilesToAnalyze(items) <==> f in items && IsRealFile(f)
    ensures FilesToAnalyze(items) == [] <==> forall f :: f in items ==> !IsRealFile(f)
  {
    var p := (item: string) => IsRealFile(item);
    FilterIsSubsequence(items, p);
    forall f ensures f in FilesToAnalyze(items) <==> f in items && IsRealFile(f) {
      FilterMembers(items, p, f);
    }
    if FilesToAnalyze(items) != [] {
      assert FilesToAnalyze(items)[0] in FilesToAnalyze(items);
    }
  }

  /**
   * Adding keeps the old lines as a prefix, holds exactly the old lines and
   * the added paths, lists no line twice, and lists the new paths in the
   * order they were first given.
   */
  lemma WithAddedSpec(items: seq<string>, paths: seq<string>)
    requires NoDup(items)
    ensures |items| <= |WithAdded(items, paths)| && WithAdded(items, paths)[..|items|] == items
    ensures forall x :: x in WithAdded(items, paths) <==> x in items || x in paths
    ensures NoDup(WithAdded(items, paths))
    ensures WithAdded(items, paths) == Distinct(items + paths)
  {
    var r := WithAdded(items, paths);
    assert r[..|items|] == items;
    forall x ensures x in r <==> x in items || x in paths {
      UnseenMembers(items, paths, x);
    }
    UnseenKeepsNoDup(items, paths);
    UnseenIsDistinct(items, paths);
  }

  /** Adding the same paths again changes nothing. */
  lemma WithAddedTwice(items: seq<string>, paths: seq<string>)
    ensures WithAdded(WithAdded(items, paths), paths) == WithAdded(items, paths)
  {
    var once := WithAdded(items, paths);
    forall x | x in paths ensures x in once {
      UnseenMembers(items, paths, x);
    }
    UnseenAllSeen(once, paths);
    assert once + [] == once;
  }

  /**
   * A drop onto a list whose first line holds the hint replaces the whole
   * list by the dropped paths, each once; otherwise the old lines stay as
   * a prefix and only missing paths are appended.
   */
  lemma AfterDropSpec(items: seq<string>, dropped: seq<string>)
    ensures ShowsHint(items) ==> AfterDrop(items, dropped) == Distinct(dropped)
    ensures !ShowsHint(items) ==> AfterDrop(items, dropped) == WithAdded(items, dropped)
  {
    if ShowsHint(items) {
      UnseenIsDistinct([], dropped);
      assert [] + dropped == dropped;
    }
  }

  /**
   * Paths added to a fresh list with the button are analysed exactly, each
   * once, in their order of first choice: the placeholders stay in the list
   * but the analysis skips them.
   */
  lemma AddToFreshList(chosen: seq<string>)
    requires forall f :: f in chosen ==> IsRealFile(f)
    ensures FilesToAnalyze(WithAdded(Placeholders, chosen)) == Distinct(chosen)
  {
    var p := (item: string) => IsRealFile(item);
    PlaceholdersHoldHints();
    forall x | x in chosen ensures x !in Placeholders {
      assert IsRealFile(x);
    }
    UnseenOfDisjoint(Placeholders, chosen);
    UnseenIsDistinct([], chosen);
    assert [] + chosen == chosen;
    var added := Unseen(Placeholders, chosen);
    FilterAppend(Placeholders, added, p);
    PlaceholdersAnalyzeNothing();
    forall x | x in added ensures p(x) {
      UnseenMembers(Placeholders, chosen, x);
    }
    FilterAll(added, p);
  }

  /**
   * The hint test looks only at the first line, and a drop then clears the
   * whole list: a path added with the button to a fresh list is lost when a
   * different path is dropped afterwards.
   */
  lemma DropAfterAddDiscards(added: string, dropped: string)
    requires IsRealFile(added) && added != dropped
    ensures WithAdded(Placeholders, [added]) == Placeholders + [added]
    ensures AfterDrop(WithAdded(Placeholders, [added]), [dropped]) == [dropped]
  {
    PlaceholdersHoldHints();
    assert added !in Placeholders;
    assert [added][..0] == [];
    assert Unseen(Placeholders, [added]) == [added];
    var items := Placeholders + [added];
    assert FirstItem(items) == FirstItem(Placeholders);
    assert ShowsHint(items);
    assert [dropped][..0] == [];
    assert Unseen([], [dropped]) == [dropped];
  }
}
