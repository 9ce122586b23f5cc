# Duplicate file finder: the partitioners and the report selection

This project models the duplicate-detection engine of `main.py`, a small
Python program that looks for files of equal content in a directory tree.
The file system is abstracted: a file is a value of a type parameter `F`,
the content comparison `compare` is a parameter `cmp: (F, F) -> bool`, and
`os.path.getsize` is a parameter `size: F -> nat`.

- `search` (module `Partition`, file `search.dfy`) drains the caller's list.
  It pops the first file as a seed, scans the remaining files from the last
  index down to 0, and pops every file that matches the seed into the seed's
  group. A group is kept when it has at least two members. The caller's list
  is the class `FileList` with a `seq` field, and `list.pop` is its method
  `Pop`. The outer loop is the method `Search`, proved to return the
  function `SearchGroups`, which states the result by recursion on the
  seeds. The inner loop is the method `PopCopies`, proved to return the
  seed's group `SeedGroup` and to leave in the list exactly the files that
  do not match the seed (`Matching`). The properties of the result (shape, disjointness,
  completeness, multiset bound) are lemmas about `SearchGroups`.
- `faster_search` (module `Prefilter`, file `faster_search.dfy`) keeps the
  files whose size occurs more than once (`Candidates`). For every candidate
  in turn it collects all candidates that match it, and emits that list when
  it has at least two members. Matched files are not removed, so a set of
  copies is emitted once per member, as in the code. The method
  `FasterSearch` is proved against the function `FasterGroups`.
- `report` (module `Reporting`, file `report.dfy`) is modelled without its
  printing. The function `Report` returns `NoDuplicates` for an empty list.
  Otherwise it returns the group chosen as "most duplicates", the group chosen
  as "most disk space" (each split into its first member and its copies), and
  the printed disk amount. It returns `IndexError` when a chosen group is
  empty, because the code then indexes `[0]` of an empty list. Python's `max`
  keeps the first of several maximal elements; `FirstMax` models that.
- Module `Agreement` (file `agreement.dfy`) relates the two partitioners.
  With a comparison that is an equivalence and sizes that agree with it,
  `search` is the reference for `faster_search`: every group of one holds,
  up to order, the same files as some group of the other, in both
  directions, so the two differ only in the repeats `faster_search` emits
  and in member order. It also shows that the report never
  fails on what either partitioner returns.
- Module `Lists` (file `lists.dfy`) holds the shared sequence functions
  (`Matching`, the comprehension `[x for x in s if compare(seed, x)]` and its
  complement; `Reverse`; `Flatten`) and the properties of `cmp` that some
  theorems assume (`Equivalence`, `SizeRespects`).

The code does not need `compare` to be an equivalence, and the model does not
assume one. Theorems that need reflexivity, symmetry or transitivity state it
as a precondition.

The printed disk amount (main.py:83-85) is the sum of the sizes of all
members of the chosen group, the first member included. The message calls it
the space that deleting the copies would recover, which would leave out the
first member. The model follows the code: `Report`'s `diskSpace` is the
total of the whole group.

## Model

| member | source | states |
|---|---|---|
| Lists.Matching | main.py:60 | the comprehension keeps exactly the scanned files `x` with `cmp(seed, x) == want`, and never more files than it scans |
| Lists.MatchingPartition | main.py:37-39 | the scan splits the remaining files into the popped ones and the ones left behind, losing and duplicating none (multiset equality) |
| Lists.MatchingSameContent | main.py:38 | two seeds of equal content (equivalence) select the same files |
| Lists.MatchingOutsideClass | main.py:37-39 | removing one seed's matches leaves the matches of a seed of other content unchanged |
| Lists.MatchingAll | main.py:60 | when every file matches the seed, the comprehension keeps them all and its complement is empty |
| Lists.Reverse | main.py:37-39 | the matches appended during the descending scan appear in reverse index order: element `i` is the input's element `n - 1 - i` |
| Lists.ReverseMultiset | main.py:37-39 | the reverse order keeps every popped file as often as it occurs |
| Lists.Flatten | main.py:29-42 | a file is in the concatenated groups exactly when it is in one of the groups |
| Lists.GroupedCons | main.py:41 | a file is grouped in a list with one more group in front exactly when it is in that group or in the rest |
| Partition.FileList.constructor | main.py:17 | the list holds the caller's files |
| Partition.FileList.Pop | main.py:36-39 | `pop(i)` returns the element at `i` and removes exactly it, keeping the order of the others |
| Partition.SeedGroup | main.py:36-39 | the group built around a seed starts with the seed and has one member more than the seed's matches among the remaining files |
| Partition.SearchGroups | main.py:17-42 | the groups `search` returns; each takes at least two files, so there are at most half as many groups as files |
| Partition.ScanTake | main.py:38-39 | a matching file at index `i` is popped: the lower indices stay in place and the file is appended to the group |
| Partition.ScanSkip | main.py:38 | a non-matching file at index `i` stays in the list and the group is unchanged |
| Partition.MatchingAt | main.py:37-38 | the scan of the suffix from `i` is the decision on `rest[i]` followed by the scan of the suffix after it |
| Partition.PopCopies | main.py:37-39 | the descending scan builds the seed's group (seed first, then its matches in descending index order) and leaves in the list exactly the files that do not match the seed, in their order |
| Partition.SearchStep | main.py:30-41 | one round of the outer loop keeps the groups found so far plus the groups of the remaining files equal to the groups of the input |
| Partition.Search | main.py:17-42 | `search` empties the caller's list and returns the groups `SearchGroups` of its original contents |
| Partition.SeedGroupMembers | main.py:36-39 | a seed's group is the seed and the remaining files that match it, one more than the matches |
| Partition.SearchSmallInput | main.py:29-42 | an empty or one-file list gives no group |
| Partition.SearchGroupsShape | main.py:36-41 | every emitted group has at least two members and every member after the first matches the first |
| Partition.SearchUsesEachFileOnce | main.py:30-39 | the concatenated groups are a sub-multiset of the input: each file is popped once |
| Partition.SearchGroupsWithin | main.py:30-41 | only files of the input appear in a group |
| Partition.SearchGroupsDisjoint | main.py:30-41 | with a reflexive comparison no file is a member of two groups |
| Partition.SearchSeedTakesAllMatches | main.py:36-41 | every remaining file matching the first file lands in the first group, and no later group holds a file matching it |
| Partition.SeedClassTogether | main.py:36-41 | two distinct files matching the first file both land in its kept group |
| Partition.SearchComplete | main.py:30-41 | with an equivalence, two distinct files of equal content end up in one group |
| Partition.SearchGroupedIff | main.py:30-41 | with an equivalence, a file is grouped exactly when the input holds at least two files of its content |
| Partition.SearchOneContent | main.py:29-42 | files that all have one content give a single group holding all of them, the first file first |
| Partition.SearchGroupsClasses | main.py:30-41 | with an equivalence, every group holds, up to order, exactly the input files that match its first file, and that file is in the input |
| Prefilter.Sizes | main.py:53 | the list of sizes has one entry per file, the size of that file |
| Prefilter.Count | main.py:54 | `count(v)` is the number of occurrences of `v` (its multiplicity in the multiset of sizes), at most the length, and positive exactly when `v` occurs |
| Prefilter.SharedSize | main.py:54 | the filter keeps exactly the files whose size occurs more than once |
| Prefilter.Candidates | main.py:53-54 | the `duplicates` list: no longer than the input, holding exactly the input files whose size occurs more than once among all sizes |
| Prefilter.SharedSizeCounts | main.py:54 | the filter keeps each file whose size is shared as often as the input holds it, and drops the others |
| Prefilter.CandidatesExact | main.py:53-54 | the candidates are exactly the input files whose size occurs more than once among all sizes, with their multiplicity |
| Prefilter.Collect | main.py:55-62 | the appends of the loop over the seeds: at most one group per seed |
| Prefilter.FasterGroups | main.py:45-64 | what `faster_search` returns: at most one group per candidate |
| Prefilter.CollectStep | main.py:55-62 | one more candidate seed appends exactly its list of matches, when it has at least two members |
| Prefilter.FasterSearch | main.py:45-64 | the loop over the candidates returns `FasterGroups` of the argument, which it only reads |
| Prefilter.CollectShape | main.py:55-62 | at most one group per seed, each of at least two members and each the matches of one seed among the candidates |
| Prefilter.CollectEmits | main.py:60-62 | a seed with at least two matches among the candidates has its group emitted |
| Prefilter.FasterGroupsShape | main.py:54-64 | at most one group per candidate; each group has at least two members and is the list of candidates matching one candidate, in input order |
| Prefilter.FasterGroupsWithin | main.py:54-62 | every grouped file is a candidate |
| Prefilter.PrunedNeverGrouped | main.py:53-54 | a file whose size no other file has is in no group |
| Prefilter.CountCoversCopies | main.py:53-54 | when equal content means equal size, a file's size occurs at least as often as the file's matches |
| Prefilter.SharedSizeFewerMatches | main.py:54-60 | the size filter never adds matches of a seed |
| Prefilter.SharedSizeKeepsMatches | main.py:54-60 | the size filter keeps all matches of a seed whose matches all have a shared size |
| Prefilter.FasterGroupedIff | main.py:45-64 | with an equivalence and sizes that agree with it, a file is grouped exactly when the input holds at least two files of its content |
| Prefilter.FasterGroupsClasses | main.py:52-64 | with an equivalence and sizes that agree with it, every group has at least two members and is the list of all input files matching one input file, in input order |
| Reporting.TotalSize | main.py:83-84 | the `sum` of the sizes of a group is at least the size of each member |
| Reporting.Lengths | main.py:78 | the `max` key of `most_copies`: one entry per group, its length |
| Reporting.TotalSizes | main.py:83 | the `max` key of `file_sizes`: one entry per group, the total size of its members |
| Reporting.FirstMax | main.py:78 | `max` with a key returns the index of the first maximal key |
| Reporting.Report | main.py:75-89 | no duplicates exactly for an empty list; otherwise the first longest group and the first group of greatest total size, each split into first member and copies, the disk amount as the total size of the whole second group, bounds over all groups, and `IndexError` exactly when a chosen group is empty |
| Reporting.ReportOnGroups | main.py:78-87 | on groups of at least two files the report never fails and each chosen file has at least one copy |
| Reporting.ReportScenario | main.py:75-87 | three files of 100 bytes and two of 250 bytes: the three are chosen for most duplicates, the two for most disk space, 500 bytes |
| Agreement.PartitionersGroupSameFiles | main.py:17-64 | with an equivalence and sizes that agree with it, `search` and `faster_search` group the same files |
| Agreement.MemberMatchesFirst | main.py:36-41 | with a reflexive comparison every member of a well-formed group matches its first member |
| Agreement.ClassIsSearchGroup | main.py:30-41 | with an equivalence, the files matching a file that has a copy form, up to order, one group of `search` |
| Agreement.FasterGroupsInSearch | main.py:17-64 | with an equivalence and sizes that agree with it, every group of `faster_search` holds the same files as some group of `search` |
| Agreement.SearchGroupsInFaster | main.py:17-64 | with an equivalence and sizes that agree with it, every group of `search` holds the same files as some group of `faster_search` |
| Agreement.PartitionersSameGroups | main.py:17-64 | both directions together: the two partitioners return the same groups up to member order and the repeats of `faster_search` |
| Agreement.FirstFileGrouped | main.py:40-41 | in a non-empty list of non-empty groups the first file of the first group is grouped |
| Agreement.NoCopiesNoGroups | main.py:17-64 | when no file has a copy, both partitioners return no group |
| Agreement.ReportOnSearchResults | main.py:75-87 | the report never fails on what either partitioner returns, and the chosen file of `search`'s result has a copy |
| Agreement.SearchScenario | main.py:29-42 | for files 1, 2, 3 where only 1 and 2 match, `search` returns `[[1, 2]]` |
| Agreement.ScenarioCounts | main.py:54 | among the sizes 10, 10 and 20, `count` gives 2 for 10 and 1 for 20 |
| Agreement.ScenarioCandidates | main.py:53-54 | of sizes 10, 10 and 20 the two files of size 10 are the candidates |
| Agreement.ScenarioMatches | main.py:60 | two files that match each other and themselves each select both |
| Agreement.FasterScenario | main.py:52-64 | for the same files, `faster_search` drops the third by its size and returns the pair once per member |

## Left out

- The `print` calls and f-string formatting of `report` (main.py:76-89): only the chosen groups and the computed numbers are modelled. Output printed before an `IndexError` is not modelled.
- The `__main__` block (main.py:92-104): timing, path construction and command-line glue.
- `all_files` and `compare` from `p1utils` and `os.path.getsize`: their source is not part of this model; `compare` and `getsize` are parameters, `all_files` is replaced by the list given to the partitioners.
- Failures of the file system (a vanished or unreadable file): the code has no handling of its own.
- `getsize` is called twice per file in `faster_search` (main.py:53-54) and twice per member of a group in `report`, once in the `max` key (main.py:83) and once in the printed sum (main.py:84); the model uses one pure `size` function, so a file whose size changes between the calls is not modelled.
- Partition.FileList: other references to the caller's list (aliasing) are not modelled; the list is one object that `Search` empties.
- Partition.SearchGroupsShape: states `cmp(group[0], x)` for the members after the first; for the first member itself this needs a reflexive comparison, which the code does not guarantee.
- Prefilter.FasterGroupsShape: that the groups come in candidate order is stated by `FasterSearch`'s postcondition through the definition of `Collect`, not by a separate lemma.
- Reporting.Report: `report` copies each chosen group with `list(...)` before `pop(0)`, so its argument is never changed; the model is a function and cannot change it either.
