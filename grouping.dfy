/**
 * Feature grouping: `group_files_by_feature` of ai-analyzer/main.py puts
 * every path into the group of its "feature name" (the basename's text
 * before the first '.', with `Controller`, then `Service`, then `Mapper`
 * removed) and returns the groups as an insertion-ordered dictionary.
 */
module Grouping {
  import opened Text
  import opened Seqs

  /**
   * A Python dict from feature name to list of paths. Python dicts remember
   * insertion order, so the model keeps the keys in `order` beside the map.
   */
  datatype FeatureGroups = FeatureGroups(order: seq<string>, lists: map<string, seq<string>>)

  /** The three words removed from a basename, in the order they are removed. */
  const RoleWords: seq<string> := ["Controller", "Service", "Mapper"]

  /** The text before the first '.' of the basename of path. */
  function BaseName(path: string): string {
    BeforeFirstDot(Basename(path))
  }

  /** `base_name.replace('Controller', '').replace('Service', '').replace('Mapper', '')` */
  function StripRoles(base: string): string {
    Replace(Replace(Replace(base, RoleWords[0], ""), RoleWords[1], ""), RoleWords[2], "")
  }

  /** The key under which group_files_by_feature files path. */
  function FeatureName(path: string): string {
    StripRoles(BaseName(path))
  }

  /** The feature name of each path, in input order. */
  function Features(files: seq<string>): seq<string> {
    KeysOf(files, FeatureName)
  }

  /** The input paths whose feature name is k, in input order. */
  function Members(files: seq<string>, k: string): seq<string> {
    GroupOf(files, FeatureName, k)
  }

  /** The number of input paths held, summed over the groups named in keys. */
  function GroupedCount(keys: seq<string>, files: seq<string>): nat {
    if keys == [] then 0
    else GroupedCount(keys[..|keys| - 1], files) + |Members(files, keys[|keys| - 1])|
  }

  /**
   * `group_files_by_feature(file_list)`: one pass over the paths, creating
   * a group the first time a feature name is seen and appending the path to
   * the group of its feature name. The loop is Seqs.GroupByKey with the
   * feature name as the key.
   */
  method GroupFilesByFeature(files: seq<string>) returns (g: FeatureGroups)
    ensures g.order == Distinct(Features(files))
    ensures forall k :: k in g.lists <==> k in g.order
    ensures forall k :: k in g.lists ==> g.lists[k] == Members(files, k)
    ensures GroupedCount(g.order, files) == |files|
    ensures |g.order| <= |files|
  {
    var order, lists := GroupByKey(files, FeatureName);
    g := FeatureGroups(order, lists);
    GroupedAll(files, g);
  }

  /** After the last path the invariant gives the contract of GroupFilesByFeature. */
  lemma GroupedAll(files: seq<string>, g: FeatureGroups)
    requires GroupedBy(files, FeatureName, g.order, g.lists)
    ensures g.order == Distinct(Features(files))
    ensures forall k :: k in g.lists <==> k in g.order
    ensures forall k :: k in g.lists ==> g.lists[k] == Members(files, k)
    ensures GroupedCount(g.order, files) == |files|
    ensures |g.order| <= |files|
  {
    PartitionCount(files);
    DistinctLength(Features(files));
  }

  // ---------------------------------------------------------------------------
  // Feature names

  /**
   * UserController.java, UserService.java and UserMapper.xml all map to
   * "User", in whatever directory they are found and whatever their
   * extension.
   */
  lemma FeatureNameExamples(root: string, ext: string)
    requires ext != [] && ext[0] == '.' && '/' !in ext
    ensures FeatureName(Join(root, "UserController" + ext)) == "User"
    ensures FeatureName(Join(root, "UserService" + ext)) == "User"
    ensures FeatureName(Join(root, "UserMapper" + ext)) == "User"
  {
    FeatureNameOfRole(root, "User", 0, ext);
    FeatureNameOfRole(root, "User", 1, ext);
    FeatureNameOfRole(root, "User", 2, ext);
    UserNames();
  }

  lemma UserNames()
    ensures "User" + RoleWords[0] == "UserController"
    ensures "User" + RoleWords[1] == "UserService"
    ensures "User" + RoleWords[2] == "UserMapper"
  {
    RoleWordsAre();
  }

  /**
   * A file named stem + one role word + ext, where no role word can start
   * inside stem, has the feature name stem.
   */
  lemma FeatureNameOfRole(root: string, stem: string, k: nat, ext: string)
    requires k < |RoleWords|
    requires '/' !in stem && '.' !in stem
    requires 'C' !in stem && 'S' !in stem && 'M' !in stem
    requires ext != [] && ext[0] == '.' && '/' !in ext
    ensures FeatureName(Join(root, stem + RoleWords[k] + ext)) == stem
  {
    RoleWordFacts();
    FeatureNameOfJoin(root, stem + RoleWords[k], ext);
    StripOneRole(stem, k);
  }

  /** The feature name of a joined path `root`/`stem` + `ext` is `stem` without its role words. */
  lemma FeatureNameOfJoin(root: string, stem: string, ext: string)
    requires '/' !in stem && '.' !in stem
    requires ext != [] && ext[0] == '.' && '/' !in ext
    ensures FeatureName(Join(root, stem + ext)) == StripRoles(stem)
  {
    BaseNameOfJoin(root, stem, ext);
  }

  /** The base name of a file stem + ext joined to root is stem. */
  lemma BaseNameOfJoin(root: string, stem: string, ext: string)
    requires '/' !in stem && '.' !in stem
    requires ext != [] && ext[0] == '.' && '/' !in ext
    ensures BaseName(Join(root, stem + ext)) == stem
  {
    BasenameOfJoin(root, stem + ext);
    BeforeDotOfStem(stem, ext);
  }

  lemma RoleWordsAre()
    ensures RoleWords[0] == "Controller" && RoleWords[1] == "Service" && RoleWords[2] == "Mapper"
  {
  }

  /** The letters of the role words that the removal proofs rely on. */
  lemma RoleWordFacts()
    ensures |RoleWords| == 3
    ensures forall k :: 0 <= k < |RoleWords| ==>
              RoleWords[k] != [] && '/' !in RoleWords[k] && '.' !in RoleWords[k]
    ensures RoleWords[0][0] == 'C' && RoleWords[1][0] == 'S' && RoleWords[2][0] == 'M'
    ensures 'C' !in RoleWords[0][1..] && 'C' !in RoleWords[1] && 'C' !in RoleWords[2]
    ensures 'S' !in RoleWords[0] && 'S' !in RoleWords[2]
    ensures 'M' !in RoleWords[0] && 'M' !in RoleWords[1]
  {
    RoleWordsAre();
  }

  /**
   * A stem in which no role word can start, followed by one role word, is
   * reduced to the stem: each of the other words has a first letter that
   * occurs in neither the stem nor the suffix.
   */
  lemma StripOneRole(stem: string, k: nat)
    requires k < |RoleWords|
    requires 'C' !in stem && 'S' !in stem && 'M' !in stem
    ensures StripRoles(stem + RoleWords[k]) == stem
  {
    RoleWordFacts();
    var s := stem + RoleWords[k];
    if k == 0 {
      RemoveAfterStem(stem, RoleWords[0]);
      FirstCharAbsent(stem, RoleWords[1]);
      ReplaceAbsent(stem, RoleWords[1], "");
      FirstCharAbsent(stem, RoleWords[2]);
      ReplaceAbsent(stem, RoleWords[2], "");
    } else if k == 1 {
      FirstCharAbsent(s, RoleWords[0]);
      ReplaceAbsent(s, RoleWords[0], "");
      RemoveAfterStem(stem, RoleWords[1]);
      FirstCharAbsent(stem, RoleWords[2]);
      ReplaceAbsent(stem, RoleWords[2], "");
    } else {
      FirstCharAbsent(s, RoleWords[0]);
      ReplaceAbsent(s, RoleWords[0], "");
      FirstCharAbsent(s, RoleWords[1]);
      ReplaceAbsent(s, RoleWords[1], "");
      RemoveAfterStem(stem, RoleWords[2]);
    }
  }

  /** Removing a role word that follows a stem in which it cannot start. */
  lemma RemoveAfterStem(stem: string, word: string)
    requires word != []
    requires forall i :: 0 <= i < |stem| ==> stem[i] != word[0]
    ensures Replace(stem + word, word, "") == stem
  {
    forall i | 0 <= i < |stem| ensures !OccursAt(stem + word, word, i) {
      assert (stem + word)[i] == stem[i];
    }
    ReplacePlainPrefix(stem, word, word, "");
    ReplaceAtFront(word, [], "");
    assert word + [] == word;
    assert stem + [] == stem;
  }

  /**
   * The removals run one after the other, so a removed word can reappear:
   * removing `Service` from `ConServicetroller` leaves `Controller`, which
   * is then the feature name.
   */
  lemma RemovedWordCanReappear(root: string, ext: string)
    requires ext != [] && ext[0] == '.' && '/' !in ext
    ensures FeatureName(Join(root, "ConServicetroller" + ext)) == "Controller"
    ensures Contains(FeatureName(Join(root, "ConServicetroller" + ext)), "Controller")
  {
    RoleWordFacts();
    var con, tail := "Con", "troller";
    ReformedNames(con, tail);
    FeatureNameOfJoin(root, con + RoleWords[1] + tail, ext);
    RoleWordReforms(con, tail);
    assert OccursAt(RoleWords[0], RoleWords[0], 0);
  }

  lemma ReformedNames(con: string, tail: string)
    requires con == "Con" && tail == "troller"
    ensures con + tail == RoleWords[0] && RoleWords[0] == "Controller"
    ensures con + RoleWords[1] + tail == "ConServicetroller"
    ensures '/' !in con + RoleWords[1] + tail && '.' !in con + RoleWords[1] + tail
  {
    RoleWordsAre();
  }

  /**
   * `Service` inserted anywhere strictly inside `Controller` is removed by
   * the second step, and what remains is `Controller` again.
   */
  lemma RoleWordReforms(con: string, tail: string)
    requires con + tail == RoleWords[0] && con != [] && tail != []
    ensures StripRoles(con + RoleWords[1] + tail) == RoleWords[0]
  {
    RoleWordFacts();
    var w0, w1, w2 := RoleWords[0], RoleWords[1], RoleWords[2];
    var s := con + w1 + tail;
    assert con == w0[..|con|] && tail == w0[|con|..];
    assert s[1..] == con[1..] + w1 + tail;
    assert 'C' !in con[1..] && 'C' !in tail by {
      assert con[1..] == w0[1..][..|con| - 1];
      assert tail == w0[1..][|con| - 1..];
    }
    assert !StartsWith(s, w0) by {
      assert s[|con|] == w1[0];
      assert w0[|con|] in w0;
    }
    OnlyCandidateAtFront(s, w0);
    ReplaceAbsent(s, w0, "");
    assert s == con + (w1 + tail);
    RemoveWordBetween(con, w1, tail);
    FirstCharAbsent(w0, w2);
    ReplaceAbsent(w0, w2, "");
  }

  /** A word whose first letter occurs in neither neighbour is cut out from between them. */
  lemma RemoveWordBetween(con: string, word: string, tail: string)
    requires word != [] && word[0] !in con && word[0] !in tail
    ensures Replace(con + (word + tail), word, "") == con + tail
  {
    forall i | 0 <= i < |con| ensures !OccursAt(con + (word + tail), word, i) {
      assert (con + (word + tail))[i] == con[i];
    }
    ReplacePlainPrefix(con, word + tail, word, "");
    ReplaceAtFront(word, tail, "");
    FirstCharAbsent(tail, word);
    ReplaceAbsent(tail, word, "");
  }

  /** A feature name is never longer than the base name it came from. */
  lemma FeatureNameNoLonger(path: string)
    ensures |FeatureName(path)| <= |BaseName(path)|
  {
    var b := BaseName(path);
    RemoveNoLonger(b, RoleWords[0]);
    RemoveNoLonger(Replace(b, RoleWords[0], ""), RoleWords[1]);
    RemoveNoLonger(Replace(Replace(b, RoleWords[0], ""), RoleWords[1], ""), RoleWords[2]);
  }

  /** A base name holding none of the three words is its own feature name. */
  lemma FeatureNameWithoutRoles(path: string)
    requires forall w :: w in RoleWords ==> !Contains(BaseName(path), w)
    ensures FeatureName(path) == BaseName(path)
  {
    var b := BaseName(path);
    RoleWordsAre();
    assert RoleWords[0] in RoleWords && RoleWords[1] in RoleWords && RoleWords[2] in RoleWords;
    ReplaceAbsent(b, RoleWords[0], "");
    ReplaceAbsent(b, RoleWords[1], "");
    ReplaceAbsent(b, RoleWords[2], "");
  }

  /** The feature name is unchanged by the removals exactly when no word was found on the way. */
  lemma FeatureNameUnchangedIff(path: string)
    ensures FeatureName(path) == BaseName(path) <==>
      !Contains(BaseName(path), "Controller")
      && !Contains(Replace(BaseName(path), "Controller", ""), "Service")
      && !Contains(Replace(Replace(BaseName(path), "Controller", ""), "Service", ""), "Mapper")
  {
    var b := BaseName(path);
    var b1 := Replace(b, "Controller", "");
    var b2 := Replace(b1, "Service", "");
    var b3 := Replace(b2, "Mapper", "");
    assert b3 == FeatureName(path);
    RemoveUnchangedIff(b, "Controller");
    RemoveUnchangedIff(b1, "Service");
    RemoveUnchangedIff(b2, "Mapper");
    RemoveNoLonger(b, "Controller");
    RemoveNoLonger(b1, "Service");
    RemoveNoLonger(b2, "Mapper");
    if b1 != b {
      if Contains(b, "Controller") {
        var i :| 0 <= i <= |b| && OccursAt(b, "Controller", i);
        RemovePresentShrinks(b, "Controller", i);
      }
      assert |b3| < |b|;
    } else if b2 != b1 {
      if Contains(b1, "Service") {
        var i :| 0 <= i <= |b1| && OccursAt(b1, "Service", i);
        RemovePresentShrinks(b1, "Service", i);
      }
      assert |b3| < |b|;
    }
  }

  // ---------------------------------------------------------------------------
  // Groups

  /** Each path is in the group of its own feature name, and only there. */
  lemma OwnGroup(files: seq<string>, p: string, k: string)
    ensures p in Members(files, k) <==> p in files && FeatureName(p) == k
  {
    GroupOfMembers(files, FeatureName, k, p);
  }

  /** A group keeps its paths in input order. */
  lemma GroupKeepsOrder(files: seq<string>, k: string)
    ensures IsSubsequence(Members(files, k), files)
  {
    GroupOfIsSubsequence(files, FeatureName, k);
  }

  /** Grouping more paths only appends to each group. */
  lemma GroupAppend(a: seq<string>, b: seq<string>, k: string)
    ensures Members(a + b, k) == Members(a, k) + Members(b, k)
  {
    GroupOfAppend(a, b, FeatureName, k);
  }

  /**
   * The groups partition the input: summed over the distinct feature names,
   * the group sizes add up to the number of paths, duplicates included.
   */
  lemma {:induction false} PartitionCount(files: seq<string>)
    ensures GroupedCount(Distinct(Features(files)), files) == |files|
    decreases |files|
  {
    if files != [] {
      var fs' := files[..|files| - 1];
      var p := files[|files| - 1];
      assert files == fs' + [p];
      PartitionCount(fs');
      PartitionStep(fs', p);
    }
  }

  /** One more path adds one to the grouped count over the keys. */
  lemma PartitionStep(files: seq<string>, p: string)
    ensures GroupedCount(Distinct(Features(files + [p])), files + [p])
      == GroupedCount(Distinct(Features(files)), files) + 1
  {
    var k := FeatureName(p);
    var keys := Distinct(Features(files));
    var more := files + [p];
    DistinctNoDup(Features(files));
    GroupedCountBump(keys, files, p);
    DistinctKeysSnoc(files, p, FeatureName);
    if k in keys {
      assert GroupedCount(keys, more) == GroupedCount(keys, files) + 1;
      assert Distinct(Features(more)) == keys;
    } else {
      assert GroupedCount(keys, more) == GroupedCount(keys, files);
      assert Distinct(Features(more)) == keys + [k];
      GroupOfAbsent(files, FeatureName, k);
      GroupOfSnoc(files, p, FeatureName, k);
      assert Members(more, k) == [p];
      GroupedCountSnoc(keys, k, more);
    }
  }

  lemma GroupedCountSnoc(keys: seq<string>, k: string, files: seq<string>)
    ensures GroupedCount(keys + [k], files) == GroupedCount(keys, files) + |Members(files, k)|
  {
    assert (keys + [k])[..|keys|] == keys;
  }

  /** Adding path p grows the group of its feature by one and no other group. */
  lemma {:induction false} GroupedCountBump(keys: seq<string>, files: seq<string>, p: string)
    requires NoDup(keys)
    ensures GroupedCount(keys, files + [p])
      == GroupedCount(keys, files) + (if FeatureName(p) in keys then 1 else 0)
    decreases |keys|
  {
    if keys != [] {
      var ks := keys[..|keys| - 1];
      var j := keys[|keys| - 1];
      assert NoDup(ks);
      GroupedCountBump(ks, files, p);
      GroupOfSnoc(files, p, FeatureName, j);
      assert keys == ks + [j];
    }
  }

  /**
   * The keys are the distinct feature names, in order of first occurrence:
   * there are as many groups as distinct feature names, at most one per path.
   */
  lemma GroupKeys(files: seq<string>)
    ensures NoDup(Distinct(Features(files)))
    ensures forall k :: k in Distinct(Features(files)) <==> exists p :: p in files && FeatureName(p) == k
    ensures |Distinct(Features(files))| == |set p | p in files :: FeatureName(p)|
    ensures |Distinct(Features(files))| <= |files|
    ensures files == [] ==> Distinct(Features(files)) == []
  {
    var keys := Distinct(Features(files));
    DistinctNoDup(Features(files));
    DistinctLength(Features(files));
    forall k ensures k in keys <==> exists p :: p in files && FeatureName(p) == k {
      DistinctMembers(Features(files), k);
      KeysOfMembers(files, FeatureName, k);
    }
    NoDupCardinality(keys);
    assert (set x | x in keys) == (set p | p in files :: FeatureName(p));
  }

  /** Groups appear in the order in which their first path appears. */
  lemma GroupOrder(files: seq<string>, i: nat, j: nat)
    requires i < j < |Distinct(Features(files))|
    ensures Distinct(Features(files))[i] in Features(files)
    ensures Distinct(Features(files))[j] in Features(files)
    ensures FirstIndex(Features(files), Distinct(Features(files))[i])
          < FirstIndex(Features(files), Distinct(Features(files))[j])
  {
    DistinctFirstOccurrenceOrder(Features(files), i, j);
  }
}
