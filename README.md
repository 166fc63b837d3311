# ai-analyzer: file discovery, feature grouping and the file list

The ai-analyzer scripts scan a source tree for Java, JSP, JavaScript and
XML files. They group the files into "feature units" by file name and send
each unit to a hosted language model for review. This project models, in
Dafny, the part of that pipeline that decides what gets analysed:

- `find_project_files`: the extension filter over the directory walk. It
  keeps every walked file whose name ends with one of the target
  extensions, joined to its directory, in walk order.
- `group_files_by_feature`: the dictionary from feature name to paths.
  The feature name is the basename's text before the first `.`, with
  `Controller`, then `Service`, then `Mapper` removed by `str.replace`.
  Keys stay in order of first occurrence.
- The file list of the "selected files" tab of `hybrid_analyzer.py` (the
  contents behind its Tk `Listbox`):
  - `drop_files`, `add_files`, `remove_files` and `clear_file_list`;
  - the placeholder filter of `start_file_analysis`.

The three scripts carry textually identical copies of the two functions.
`main.py`'s copy is modelled in the modules `Discovery` and `Grouping`.
The copies in `gui_analyzer.py` and `hybrid_analyzer.py` are methods of the
modules `GuiAnalyzer` and `HybridAnalyzer` that run the shared model.

Modules:

- `Seqs`: generic sequence facts. It covers filtering, subsequences,
  duplicate-free sequences, first-occurrence order (`Distinct`), the
  "append unless present" loop (`Unseen`), deletion of a set of
  positions (`Keep`, `Without`, `DeleteAt`), and the loop that files
  each element of a list under its key in an insertion-ordered dictionary
  (`GroupByKey`, with the key function as a parameter).
- `Text`: the Python string operations used, on `seq<char>`. These are
  `startswith`, `endswith` with a tuple of suffixes, substring `in`, a full
  `str.replace` (an empty pattern included), `split('.')[0]`, and the POSIX
  `os.path.basename` and two-argument `os.path.join`.
- `Discovery`: `find_project_files` as nested loops over a given walk. The
  walk is a `seq<WalkStep>`, one step per directory that `os.walk` yields,
  with its file names.
- `Grouping`: `group_files_by_feature`, which runs that loop with the
  feature name as the key. The dictionary is `FeatureGroups`: a key
  order beside a map.
- `GuiAnalyzer`: the copies nested in `start_analysis_logic`.
- `HybridAnalyzer`: the copies nested in `start_folder_analysis_logic`, and
  `App`, a class whose field `fileList` holds the lines of the list.
  `Valid()` says no line is listed twice.

The model shows the following behaviour of the code as written.

- The three removals run one after the other. A removed word can therefore
  re-form: `ConServicetroller.java` gets the feature name `Controller`.
- `drop_files` looks only at the first line. If that line holds the drop
  hint, the drop clears the whole list. A file added with the button to a
  fresh list is lost when a different file is dropped afterwards
  (`DropAfterAddDiscards`).
- `add_files` leaves the placeholder lines in the list.
  `start_file_analysis` then skips them: every line that contains either
  hint fragment is dropped.

## Model

| member | source | states |
|---|---|---|
| `Discovery.FindProjectFiles` | ai-analyzer/main.py:11-19 | The nested loops return, in walk order, the joined path of exactly the kept entries: one per kept entry, the i-th path being the i-th kept entry's root joined with its name. |
| `Text.EndsWithAny` | ai-analyzer/main.py:16 | The test `file.endswith(tuple(extensions))`: a name passes iff one of the listed suffixes ends it. |
| `Text.Join` | ai-analyzer/main.py:17 | POSIX `os.path.join(root, file)`: the name alone if it is absolute, `root + name` if the root is empty or ends in `/`, otherwise `root + "/" + name`. |
| `Discovery.TargetExtensionIff` | ai-analyzer/main.py:16 | With the target list, a file name passes the test iff it ends with `.java`, `.jsp`, `.js` or `.xml`. |
| `Discovery.TargetExtensionExamples` | ai-analyzer/main.py:8 | `a.json` is rejected; `a.js`, `UserMapper.xml` and `list.jsp` are kept. |
| `Discovery.KeptSpec` | ai-analyzer/main.py:13-18 | The kept entries are a subsequence of the walked entries, in walk order, holding exactly the walked entries whose name passes the test. |
| `Discovery.FoundPathsJoinKept` | ai-analyzer/main.py:16-18 | The found paths correspond one to one, in order, to the kept entries, each joined to its root. |
| `Discovery.FoundPathsAppend` | ai-analyzer/main.py:14-18 | Walking more directories only appends to what was found before. |
| `Discovery.FoundEveryWanted` | ai-analyzer/main.py:14-18 | Every walked file with a target extension is among the found paths, under its joined path. |
| `Discovery.FoundOnlyWanted` | ai-analyzer/main.py:16-18 | Every found path is the joined path of some walked file that passes the test. |
| `Grouping.GroupFilesByFeature` | ai-analyzer/main.py:22-31 | The keys are the distinct feature names in order of first occurrence. Every key has a list, and only keys do. Each list holds exactly the paths with that feature name, in input order. The sizes of these groups sum to the number of input paths, so there are at most that many groups. |
| `Seqs.GroupByKey` | ai-analyzer/main.py:24-30 | The loop leaves the keys of the input in order of first occurrence, a list for exactly those keys, and under each key exactly the elements carrying it, in input order. |
| `Seqs.GroupedByStep` | ai-analyzer/main.py:28-30 | One iteration keeps that invariant: a new key gets an empty list and is appended to the key order, and the element goes to the end of its own key's list. |
| `Grouping.BaseName` | ai-analyzer/main.py:26 | `os.path.basename(file_path).split('.')[0]`: the basename's text before its first `.`, or the whole basename. |
| `Grouping.StripRoles` | ai-analyzer/main.py:27 | The three `replace` calls in order: every `Controller` removed, then every `Service` in what is left, then every `Mapper`. |
| `Grouping.FeatureName` | ai-analyzer/main.py:26-27 | The key of a path: `StripRoles` applied to `BaseName` of the path. |
| `Grouping.FeatureNameExamples` | ai-analyzer/main.py:26-27 | `UserController`, `UserService` and `UserMapper` with any extension starting with `.`, in any directory, all get the feature name `User`. |
| `Grouping.StripOneRole` | ai-analyzer/main.py:27 | A stem without `C`, `S` or `M` followed by one role word loses exactly that word. |
| `Grouping.BaseNameOfJoin` | ai-analyzer/main.py:26 | The basename's text before the first `.` of a joined path `root`/`stem` + `ext` is `stem`. |
| `Grouping.RemovedWordCanReappear` | ai-analyzer/main.py:27 | Because the removals run in sequence, `ConServicetroller` gets the feature name `Controller`, which still contains a role word. |
| `Grouping.FeatureNameNoLonger` | ai-analyzer/main.py:26-27 | The feature name is never longer than the basename prefix it came from. |
| `Grouping.FeatureNameWithoutRoles` | ai-analyzer/main.py:27 | A basename prefix containing none of the three words is its own feature name. |
| `Grouping.FeatureNameUnchangedIff` | ai-analyzer/main.py:27 | The feature name equals the basename prefix iff no removal step found its word. |
| `Grouping.OwnGroup` | ai-analyzer/main.py:28-30 | A path is in group k iff it is an input path whose feature name is k, so every path lands in exactly its own feature's group. |
| `Grouping.GroupKeepsOrder` | ai-analyzer/main.py:30 | Each group is a subsequence of the input: paths keep their input order. |
| `Grouping.GroupAppend` | ai-analyzer/main.py:24-30 | Grouping more paths only appends to each group. |
| `Grouping.PartitionCount` | ai-analyzer/main.py:24-30 | Over the keys, the group sizes sum to the input length, duplicates included. |
| `Grouping.GroupKeys` | ai-analyzer/main.py:24-31 | The keys are duplicate-free, are exactly the feature names of the input paths, and number as many as the distinct feature names: at most the input length, and none for an empty input. |
| `Grouping.GroupOrder` | ai-analyzer/main.py:28-29 | Keys appear in the order of the first path carrying them. |
| `Text.BeforeFirstDot` | ai-analyzer/main.py:26 | `split('.')[0]` is the longest prefix without `.`: all of the string, or the text before the first `.`. |
| `Text.Basename` | ai-analyzer/main.py:26 | `os.path.basename` is the longest suffix without `/`. |
| `Text.BasenameOfJoin` | ai-analyzer/main.py:17 | The basename of a joined path is the name that was joined. |
| `Text.Replace` | ai-analyzer/main.py:27 | Python's `str.replace`: scanning left to right, each non-overlapping occurrence of the pattern is replaced; an empty pattern inserts the replacement before every character and at the end. |
| `Text.RemoveUnchangedIff` | ai-analyzer/main.py:27 | Removing a non-empty word with `replace` leaves a string unchanged iff the word does not occur in it. |
| `Text.RemoveNoLonger` | ai-analyzer/main.py:27 | Removing a word with `replace` never makes a string longer. |
| `GuiAnalyzer.FindProjectFiles` | ai-analyzer/gui_analyzer.py:14-21 | The same filter as in main.py. It returns the joined paths of exactly the walked files that pass the test, in walk order. |
| `GuiAnalyzer.GroupFilesByFeature` | ai-analyzer/gui_analyzer.py:23-31 | The same grouping as in main.py. It is a partition by feature name, keys follow first occurrence, and each group keeps input order. |
| `HybridAnalyzer.FindProjectFiles` | ai-analyzer/hybrid_analyzer.py:20-27 | The same filter as in main.py. It returns the joined paths of exactly the walked files that pass the test, in walk order. |
| `HybridAnalyzer.GroupFilesByFeature` | ai-analyzer/hybrid_analyzer.py:29-37 | The same grouping as in main.py. It is a partition by feature name, keys follow first occurrence, and each group keeps input order. |
| `HybridAnalyzer.App.constructor` | ai-analyzer/hybrid_analyzer.py:214-215 | A new list holds exactly the two placeholder lines. |
| `HybridAnalyzer.App.DropFiles` | ai-analyzer/hybrid_analyzer.py:234-245 | The new list is `AfterDrop` of the old one. It is emptied first when its first line holds the drop hint, then only the dropped paths not yet listed are appended. No line is listed twice afterwards. |
| `HybridAnalyzer.App.AddFiles` | ai-analyzer/hybrid_analyzer.py:247-251 | The new list is the old list followed by the chosen paths not yet listed; placeholders stay. |
| `HybridAnalyzer.App.InsertMissing` | ai-analyzer/hybrid_analyzer.py:243-245 | The loop appends each path unless the list, as it grows, already holds it, and keeps the list duplicate-free. |
| `HybridAnalyzer.App.RemoveFiles` | ai-analyzer/hybrid_analyzer.py:253-256 | Exactly the lines at the selected indices are gone and the others remain in order. The list shrinks by the number of selected lines and stays duplicate-free. |
| `HybridAnalyzer.DeleteDescending` | ai-analyzer/hybrid_analyzer.py:255-256 | Deleting the selected indices one at a time, highest first, removes exactly the entries at the selected original positions. |
| `HybridAnalyzer.App.ClearFileList` | ai-analyzer/hybrid_analyzer.py:258-263 | The list holds exactly the two placeholder lines. |
| `HybridAnalyzer.App.StartFileAnalysis` | ai-analyzer/hybrid_analyzer.py:278-298 | An error is shown iff no line lacks both hint fragments. Otherwise the worker gets exactly `FilesToAnalyze` of the list: a non-empty subsequence holding every line with neither fragment, repeated lines as often as they are listed. |
| `HybridAnalyzer.FilesToAnalyze` | ai-analyzer/hybrid_analyzer.py:283-286 | The list comprehension: the lines holding neither hint fragment, in list order, repeated lines included. |
| `HybridAnalyzer.FilesToAnalyzeSpec` | ai-analyzer/hybrid_analyzer.py:283-286 | The analysed files are a subsequence of the list holding exactly the lines with neither fragment; they are empty iff every line holds one. |
| `HybridAnalyzer.PlaceholdersHoldHints` | ai-analyzer/hybrid_analyzer.py:237 | The first placeholder line holds the drop hint and both placeholder lines hold a fragment. |
| `HybridAnalyzer.PlaceholdersAnalyzeNothing` | ai-analyzer/hybrid_analyzer.py:283-291 | A fresh or cleared list yields no files to analyse, so starting shows the error. |
| `HybridAnalyzer.WithAdded` | ai-analyzer/hybrid_analyzer.py:249-251 | The list after the insertion loop: the old lines followed by `Unseen`, the given paths missing from the list as it grows. |
| `HybridAnalyzer.AfterDrop` | ai-analyzer/hybrid_analyzer.py:237-245 | The list after a drop: emptied first when the first line holds the drop hint, then the insertion loop. |
| `HybridAnalyzer.WithAddedSpec` | ai-analyzer/hybrid_analyzer.py:249-251 | Adding keeps the old lines as a prefix and lists exactly the old lines and the added paths, none twice. The new paths appear in the order they were first given, i.e. the result is `Distinct(old + added)`. |
| `HybridAnalyzer.WithAddedTwice` | ai-analyzer/hybrid_analyzer.py:249-251 | Adding the same paths a second time changes nothing. |
| `HybridAnalyzer.AfterDropSpec` | ai-analyzer/hybrid_analyzer.py:237-245 | A drop onto a list whose first line holds the hint yields exactly the dropped paths, each once; otherwise it is an add. |
| `HybridAnalyzer.AddToFreshList` | ai-analyzer/hybrid_analyzer.py:249-251 | Real paths added with the button to a fresh list are analysed exactly, each once, in their order of first choice, placeholders skipped. |
| `HybridAnalyzer.DropAfterAddDiscards` | ai-analyzer/hybrid_analyzer.py:237-238 | After adding one file to a fresh list, dropping a different file leaves only the dropped file. |
| `Seqs.WithoutSpec` | ai-analyzer/hybrid_analyzer.py:255-256 | Deleting a set of valid positions shortens by its size and keeps a subsequence holding every unselected entry. On a duplicate-free list, an entry survives iff its position is unselected. |
| `Seqs.DeleteHighestPending` | ai-analyzer/hybrid_analyzer.py:255 | Deleting the highest pending index, at its current position, is deleting that original position, because every higher selected index is already gone. |
| `Seqs.UnseenIsDistinct` | ai-analyzer/hybrid_analyzer.py:243-245 | On a duplicate-free list, appending each missing path gives the first-occurrence order of the old list followed by the paths. |

## Left out

- The directory traversal of `os.walk` is not modelled: its result is an
  input. The sub-directory names it yields are not modelled, because the
  filter never reads them.
- Windows path rules of `os.path.join` and `os.path.basename` are not
  modelled (backslashes, drive letters). The model uses the POSIX rules:
  basename is the text after the last `/`, and join inserts one `/`
  unless the root is empty or already ends with `/`, or the name is
  absolute.
- File reads, the report file writes, and the console or queue log
  messages are left out, because they are I/O.
- The model calls of `google.generativeai` are left out, because they are
  foreign calls to a hosted service. These are the configuration,
  `generate_content`, the prompt text and the response.
- `load_dotenv`, `os.getenv` and the import-time API-key check of main.py
  are left out, because they read the environment.
- The worker threads, `stop_event`, the log queue, the polling in
  `process_queue` and `time.sleep` are left out, because they are
  concurrency and timing. `HybridAnalyzer.App.StartFileAnalysis` returns
  which files the worker would receive instead of starting a thread.
- Widget construction, colours (`fg` grey/black), enabling and disabling
  of buttons, dialogs and drag-and-drop registration are left out, because
  they are UI.
  - The file dialog's result is the `chosen` input of `AddFiles`.
  - The paths that `tk.splitlist` parses out of `event.data` are the
    `dropped` input of `DropFiles`; the Tcl list syntax is not modelled.
  - The selection from `curselection()` is the `selected` set of
    `RemoveFiles`.
- The folder-analysis driver code is left out: the early return on an
  empty file list and the loop over the groups that sends each one to the
  model, because it only sequences I/O.
- `HybridAnalyzer.App.RemoveFiles`: the descending deletions run in
  `DeleteDescending` on the value of the list, which is then stored back.
  The deletions and their order are the same. The model does not capture
  that the widget is changed one deletion at a time.
