/**
 * ai-analyzer/gui_analyzer.py: `start_analysis_logic` defines its own
 * copies of `find_project_files` and `group_files_by_feature`, with the same
 * statements as those of main.py, so they share the same model.
 */
module GuiAnalyzer {
  import opened Text
  import opened Seqs
  import Discovery
  import Grouping

  /** The nested `find_project_files` of `start_analysis_logic`. */
  method FindProjectFiles(walk: seq<Discovery.WalkStep>, extensions: seq<string>) returns (found: seq<string>)
    ensures found == Discovery.FoundPaths(Discovery.Entries(walk), extensions)
    ensures IsSubsequence(Discovery.Kept(Discovery.Entries(walk), extensions), Discovery.Entries(walk))
    ensures forall e :: e in Discovery.Kept(Discovery.Entries(walk), extensions) <==>
              e in Discovery.Entries(walk) && EndsWithAny(e.1, extensions)
    ensures |found| == |Discovery.Kept(Discovery.Entries(walk), extensions)|
    ensures forall i :: 0 <= i < |found| ==>
              found[i] == Join(Discovery.Kept(Discovery.Entries(walk), extensions)[i].0,
                               Discovery.Kept(Discovery.Entries(walk), extensions)[i].1)
  {
    found := Discovery.FindProjectFiles(walk, extensions);
    Discovery.KeptSpec(walk, extensions);
  }

  /** The nested `group_files_by_feature` of `start_analysis_logic`. */
  method GroupFilesByFeature(files: seq<string>) returns (g: Grouping.FeatureGroups)
    ensures g.order == Distinct(Grouping.Features(files))
    ensures forall k :: k in g.lists <==> k in g.order
    ensures forall k :: k in g.lists ==> g.lists[k] == Grouping.Members(files, k)
    ensures forall k :: k in g.lists ==> IsSubsequence(g.lists[k], files)
    ensures Grouping.GroupedCount(g.order, files) == |files|
    ensures |g.order| <= |files|
  {
    g := Grouping.GroupFilesByFeature(files);
    forall k | k in g.lists ensures IsSubsequence(g.lists[k], files) {
      Grouping.GroupKeepsOrder(files, k);
    }
  }
}
