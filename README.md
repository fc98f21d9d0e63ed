# dirslicer slicing engine, modelled in Dafny

`dirslice` moves every file below a source directory into a target
directory. When there are more files than the configured slice size, it
spreads them over sub-directories of at most that many files each. The core
modelled here is the slicing engine in `cmd/dirslice`:

- **Walk.** The source tree is walked recursively. Every entry whose name
  starts with a dot is skipped, and a dot directory is skipped with
  everything below it. Directory entries are read in chunks of 4096.
- **Order.** The files found are sorted ascending by name.
- **Partition.** The sorted list is cut into `ceil(n / sliceSize)`
  contiguous slices. Every slice but the last holds exactly `sliceSize`
  files.
- **Naming.** When there is more than one slice, slice `i` gets the
  directory name `<prefix(first)>-<prefix(last)>`. `first` and `last` are
  the names of the slice's first and last files, and `prefix` takes the
  first `ceil(slices / 26)` runes. A name already handed out is made
  unique with the first free `(1)`, `(2)`, ... suffix.
- **Moving.** Each file is moved into its slice's directory, or into the
  target root when there is only one slice. Within one directory, a name
  that is already taken gets the same kind of suffix.

The model has six modules:

- `Sets` (`sets.dfy`): the map-backed `set` type, as a class with one
  mutable `set` field.
- `Utils` (`utils.dfy`): `min`, `getPrefix` and `makeUnique`.
  - `makeUnique` is a method proved against the function `Uniquify`.
  - `AssignUnique` is the "make unique, then record" pattern that both
    `makeDirnames` and `moveFiles` run, stated once.
- `Collector` (`collector.dfy`): `collectDir` and `collectDirEntries` over
  an abstract tree of `File`, `Dir` and `Unreadable` nodes.
  - Both are methods with loops, proved equal to a recursive
    specification of the walk.
  - The walk is proved to yield exactly the files that are not hidden.
  - A tree may hold two entries of one name in a directory, which no file
    system does. `WellFormed` rules that out. For well-formed trees the
    walk is proved to yield each file once.
- `Sorting` (`sorting.dfy`): the ordering step. The model uses a
  sorted-permutation function in place of the library sort.
- `Partition` (`partition.dfy`): the slice count, the slice bounds,
  `makeDirname` and `makeDirnames`.
- `Relocator` (`relocator.dfy`): `moveFiles` and `sliceDir`.
  - Renames and directory creations are not performed. A run yields the
    directory names it creates and the ordered list of moves it makes.

Two behaviours of the source worth stating:

- **A failed walk does not stop the run.** `sliceDir` prints the walk's
  error and goes on with the empty file list the failed `collectDir`
  returned (`cmd/dirslice/slicer.go:120-123`). So `Relocator.Found` yields
  no files for a walk that failed, and `Relocator.FailedWalkMovesNothing`
  proves that such a run creates no directory and moves nothing.
  `Collector.CollectedDirFails` says exactly when the walk fails: the start
  cannot be read, or an unreadable directory is reached through entries
  that are not hidden.
- **The first file with a given name can be renamed.** `moveFiles`
  (`cmd/dirslice/slicer.go:154-165`) checks each name only against the
  names handed out before it, and a suffixed name handed out earlier in the
  same call may equal a later file's real name.
  `Utils.FirstHolderCanBeRenamed` proves the case of `"a"`, `"a"`, `"a(1)"`:
  the file really named `a(1)` becomes `a(1)(1)`. What does hold is
  `Utils.AssignUniqueKeeps`: a name is kept exactly when no earlier name of
  the same call equals it.

Integer ceiling division replaces `int(math.Ceil(float64(a) / float64(b)))`.
`CeilDiv` counts down by `b` and `SliceStart` counts up by `sliceSize`.
Lemmas tie both to the arithmetic they stand for:

- `Partition.CeilDivIsCeiling`: `a <= CeilDiv(a, b) * b < a + b`.
- `Partition.SliceStartIsProduct`: `SliceStart(s, i) == i * s`.

## Model

| member | source | states |
|---|---|---|
| Sets.Set.constructor | cmd/dirslice/set.go:9-11 | a new set contains no value at all |
| Sets.Set.Put | cmd/dirslice/set.go:14-16 | afterwards `v` is a member; every other value keeps its membership; nothing is removed; putting a member again changes nothing |
| Sets.Set.Contains | cmd/dirslice/set.go:19-22 | answers membership and changes nothing |
| Utils.Min | cmd/dirslice/utils.go:8-13 | the result is at most both arguments and equals one of them |
| Utils.GetPrefix | cmd/dirslice/utils.go:16-23 | the result is a prefix of the string, of length `min(n, runes)` |
| Utils.GetPrefixEdges | cmd/dirslice/utils_test.go:17-22 | length 0 gives ""; a length at least the string's gives the whole string |
| Utils.DecimalString | cmd/dirslice/utils.go:31 | the decimal digits of a counter as `%d` prints them; `DecimalStringValue` proves the digits denote the counter with no leading zero, `DecimalStringInjective` that different counters print differently |
| Utils.DecimalStringValue | cmd/dirslice/utils.go:31 | the digits read back as a number give the counter, and a positive counter has no leading zero |
| Utils.DecimalStringInjective | cmd/dirslice/utils.go:31 | different counters print as different decimal strings |
| Utils.Candidate | cmd/dirslice/utils.go:29-31 | try 0 is the name itself; try `k > 0` starts with the name and is longer by more than two characters |
| Utils.CandidateInjective | cmd/dirslice/utils.go:31 | different tries give different names |
| Utils.CandidatesBound | cmd/dirslice/utils.go:30 | if the first `n` tries are all taken, then `n` is at most the number of taken names, so the search ends |
| Utils.FirstFreeFrom | cmd/dirslice/utils.go:30-32 | the first free try from `k` on: it is not taken, all tries before it are taken, and it is at most the number of taken names |
| Utils.Uniquify | cmd/dirslice/utils.go:27-35 | the name picked is never taken, and it is the name itself when that is free |
| Utils.UniquifyIsCandidate | cmd/dirslice/utils.go:30-32 | the name picked is try `k` for some `k <= |taken|`, and every earlier try is taken |
| Utils.UniquifyIsFirstFree | cmd/dirslice/utils.go:30-32 | a free try whose predecessors are all taken is the one picked (minimality) |
| Utils.UniquifyExamples | cmd/dirslice/utils_test.go:24-54 | `a` with {} gives `a`; with {a} gives `a(1)`; with {a, a(1), a(2)} gives `a(3)` |
| Utils.MakeUnique | cmd/dirslice/utils.go:27-35 | the search loop returns `Uniquify(name, set)`, a name not in the set; it only reads the set |
| Utils.AssignUnique | cmd/dirslice/slicer.go:100-113 | one handed-out name per candidate |
| Utils.AssignUniquePrefix | cmd/dirslice/slicer.go:103-113 | the names for a prefix of the candidates are the prefix of the names |
| Utils.AssignUniqueAt | cmd/dirslice/slicer.go:109-111 | name `i` is candidate `i` made unique against names `0..i-1` |
| Utils.AssignUniqueStep | cmd/dirslice/slicer.go:109-112 | one more candidate appends its name made unique against the names so far |
| Utils.AssignUniqueStepElems | cmd/dirslice/slicer.go:111 | the recorded set grows by exactly the new name |
| Utils.AssignUniqueDistinct | cmd/dirslice/slicer.go:100-112 | all names of one scope are pairwise distinct |
| Utils.AssignUniqueSuffixed | cmd/dirslice/slicer.go:109 | name `i` is candidate `i` with suffix `k` for some `k <= i` (`k = 0` is the bare name) |
| Utils.AssignUniqueKeeps | cmd/dirslice/slicer.go:159 | a candidate keeps its name exactly when no earlier name equals it |
| Utils.AssignUniqueNoCollision | cmd/dirslice/slicer.go:159 | pairwise different candidates are all kept unchanged |
| Utils.FirstHolderCanBeRenamed | cmd/dirslice/slicer.go:156-165 | `a`, `a`, `a(1)` become `a`, `a(1)`, `a(1)(1)`: the first file named `a(1)` is renamed |
| Collector.Hidden | cmd/dirslice/slicer.go:32 | a name is hidden when it starts with a dot; `VisibleNotHidden` and `BlockedUnder` build on it |
| Collector.Then | cmd/dirslice/slicer.go:36-40 | the result is an error exactly when either part is; the first part's error wins, the second's is returned when only it fails; otherwise the file lists are joined in order |
| Collector.CollectedEntries | cmd/dirslice/slicer.go:28-47 | the walk of a directory's entries in order, stopping at the first error; described by `CollectedEntriesAppend`, `CollectedEntriesExact` and `CollectedEntriesFails` |
| Collector.CollectedEntry | cmd/dirslice/slicer.go:31-43 | one entry: nothing when hidden, the file itself, or the walk of the directory one level down; described by `CollectedEntryExact` and `CollectedEntryFails` |
| Collector.CollectedDir | cmd/dirslice/slicer.go:50-76 | the walk of a directory's entries, or an error naming it when it cannot be opened or read; described by `CollectedDirFails` and `CollectedDirExamples` |
| Collector.CollectedEntriesAppend | cmd/dirslice/slicer.go:59-73 | walking entries in two parts is walking them at once, so the chunk size does not change the result |
| Collector.CollectedEntryExact | cmd/dirslice/slicer.go:31-43 | a successful walk of one entry yields exactly its visible files |
| Collector.CollectedEntriesExact | cmd/dirslice/slicer.go:28-47 | a successful walk yields a file if and only if it is reachable through entries that are not hidden |
| Collector.VisibleNotHidden | cmd/dirslice/slicer.go:32-36 | a yielded file has no dot name and lies below the start path, and no directory between them has a dot name |
| Collector.VisibleUnderShape | cmd/dirslice/slicer.go:36-42 | a file found under a file entry lies in the entry's own directory under its name; one found under a directory entry lies one level down, in the entry's name |
| Collector.CollectedEntryNoDuplicates | cmd/dirslice/slicer.go:31-43 | in a tree where no directory holds two entries of one name, a successful walk of an entry yields each file once |
| Collector.CollectedEntriesNoDuplicates | cmd/dirslice/slicer.go:28-47 | in such a tree, the walk of a directory's entries yields each file once, because entries with different names yield different files |
| Collector.CollectedDirNoDuplicates | cmd/dirslice/slicer_test.go:49-50 | a successful walk of such a tree yields each file once, so the result is a set of files, as the tests' element-wise comparison takes it to be |
| Collector.HiddenEntriesSkipped | cmd/dirslice/slicer.go:32-34 | a dot file and a dot directory yield nothing |
| Collector.CollectedDirExamples | cmd/dirslice/slicer_test.go:13-87 | an empty root yields nothing; a root file and a subdirectory file are both found, each with its own directory, and dot entries are not |
| Collector.CollectedEntryFails | cmd/dirslice/slicer.go:31-43 | one entry fails to walk exactly when it is not hidden and is, or leads through visible directories to, an unreadable directory |
| Collector.CollectedEntriesFails | cmd/dirslice/slicer.go:28-47 | the walk of a directory's entries fails exactly when one of them is blocked in that sense; hidden unreadable directories never fail it |
| Collector.CollectedDirFails | cmd/dirslice/slicer.go:50-76 | the walk from a start node fails exactly when the start cannot be opened or read, or one of its entries is blocked |
| Collector.CollectDirEntries | cmd/dirslice/slicer.go:28-47 | the entry loop returns the walk of those entries, or the first error |
| Collector.CollectDir | cmd/dirslice/slicer.go:50-76 | the chunked read loop returns the walk of the directory; an unreadable directory is an error naming its path |
| Sorting.NameLeq | cmd/dirslice/slicer.go:126-128 | the order by file name that the sort uses; `NameLeqTotal` and `NameLeqTransitive` show it is total and transitive |
| Sorting.NameLeqTotal | cmd/dirslice/slicer.go:126-128 | any two names are ordered one way or the other |
| Sorting.NameLeqTransitive | cmd/dirslice/slicer.go:126-128 | the name order is transitive |
| Sorting.Insert | cmd/dirslice/slicer.go:126-128 | inserting into a sorted list keeps it sorted and adds exactly that file |
| Sorting.SortByName | cmd/dirslice/slicer.go:126-128 | the result is sorted by name and is a permutation of the input |
| Partition.CeilDivIsCeiling | cmd/dirslice/slicer.go:91 | `a <= CeilDiv(a, b) * b < a + b`, the integer ceiling of `a / b` |
| Partition.CeilDiv | cmd/dirslice/slicer.go:91 | integer ceiling of `a / b`, proved by `CeilDivIsCeiling` to satisfy `a <= r * b < a + b` |
| Partition.NumSlices | cmd/dirslice/slicer.go:91 | the number of slices, `ceil(len(files) / sliceSize)`; its cases are stated by `NumSlicesCases` |
| Partition.PrefixLength | cmd/dirslice/slicer.go:98 | the runes taken from each boundary name, `ceil(numOfSlices / 26)` |
| Partition.NumSlicesCases | cmd/dirslice/slicer.go:91-96 | no slices exactly for no files; at most one slice exactly when all files fit |
| Partition.SliceStart | cmd/dirslice/slicer.go:143 | where slice `i` starts; `SliceStartIsProduct` proves it is `i * sliceSize`, `SliceStartInRange` and `SliceStartPastEnd` bound it |
| Partition.SliceStartIsProduct | cmd/dirslice/slicer.go:105 | slice `i` starts at `i * sliceSize` |
| Partition.SliceStartInRange | cmd/dirslice/slicer.go:105 | every slice starts inside the list |
| Partition.SliceStartPastEnd | cmd/dirslice/slicer.go:103 | the slice after the last one would start at or past the end of the list |
| Partition.SliceEnd | cmd/dirslice/slicer.go:143-144 | a slice ends after its start and no later than the end of the list |
| Partition.SliceEndAgrees | cmd/dirslice/slicer.go:106 | the end `sliceDir` cuts at is the bound `makeDirnames` takes the last file from |
| Partition.SliceShape | cmd/dirslice/slicer.go:104-107 | each slice holds 1 to `sliceSize` files and all but the last exactly `sliceSize`; its first and last files are the boundary files of its name |
| Partition.Slice | cmd/dirslice/slicer.go:143-144 | slice `i` of the file list; `SliceShape` gives its size and boundary files, `SlicesCutInto` its exact bounds |
| Partition.Slices | cmd/dirslice/slicer.go:138-147 | one slice per slice count |
| Partition.SlicesCutInto | cmd/dirslice/slicer.go:143-144 | slice `i` is `files[start : start+min(sliceSize, len-start)]` with `start` inside the list |
| Partition.SlicesPrefix | cmd/dirslice/slicer.go:138-147 | the first `m` slices laid end to end are the files before slice `m` |
| Partition.SlicesCoverAll | cmd/dirslice/slicer.go:138-147 | all slices laid end to end are the sorted list: every file is in exactly one slice, in order |
| Partition.MakeDirname | cmd/dirslice/slicer.go:82-87 | the name is the start name's prefix, then a dash, then the end name's prefix; each prefix is `min(n, runes)` long |
| Partition.BaseDirname | cmd/dirslice/slicer.go:104-107 | the name candidate of slice `i` before it is made unique; `BaseDirnameOf` pins its boundary files and prefix length |
| Partition.BaseDirnames | cmd/dirslice/slicer.go:103-108 | one candidate name per slice |
| Partition.BaseDirnameOf | cmd/dirslice/slicer.go:104-107 | candidate `i` is `makeDirname` of the names of `files[i*s]` and `files[min((i+1)*s, len)-1]` |
| Partition.Dirnames | cmd/dirslice/slicer.go:90-116 | no names for a single slice, otherwise the candidate names made unique in order; described by `DirnamesCount`, `DirnamesDistinct` and `DirnamesSuffixed` |
| Partition.DirnamesCount | cmd/dirslice/slicer.go:91-96 | no names exactly when all files fit into one slice (an empty list included); otherwise one name per slice |
| Partition.DirnamesDistinct | cmd/dirslice/slicer.go:100-112 | the names of one call are pairwise distinct |
| Partition.DirnamesSuffixed | cmd/dirslice/slicer.go:104-109 | name `i` is the boundary name of slice `i`, possibly with a `(k)` suffix, `k <= i` |
| Partition.MakeDirnames | cmd/dirslice/slicer.go:90-116 | the loop returns `Dirnames`: nothing for one slice, otherwise the unique names in slice order |
| Partition.NameSlice | cmd/dirslice/slicer.go:104-112 | one loop turn appends the next unique name and records it in the set |
| Partition.BoundaryNames | cmd/dirslice/slicer.go:104-107 | reads the names at `i * sliceSize` and `min((i + 1) * sliceSize, len) - 1`, which are the first and last files of slice `i` |
| Partition.NumberedFilesCandidate | cmd/dirslice/slicer_test.go:97-111 | 30 files in slices of ten make 3 slices; slice `k` of "00".."29" has candidate "k-k" |
| Partition.DirnamesThirtyFiles | cmd/dirslice/slicer_test.go:97-111 | "00".."29" in slices of ten are named "0-0", "1-1", "2-2" |
| Relocator.PlannedMoves | cmd/dirslice/slicer.go:153-166 | one move per file |
| Relocator.MoveFiles | cmd/dirslice/slicer.go:153-166 | the loop makes exactly the planned moves: each file in order, under its name made unique within the call |
| Relocator.PlannedMovesStep | cmd/dirslice/slicer.go:156-165 | one more file appends its move and records its new name |
| Relocator.PlannedMovesProperties | cmd/dirslice/slicer.go:153-166 | every file is moved once, in order, into the given directory, and no two moves share a target |
| Relocator.PlannedMoveName | cmd/dirslice/slicer.go:159 | a target name is the file's name with suffix `k <= i`; it keeps its name exactly when no earlier move took that name |
| Relocator.PlannedMovesKeepNames | cmd/dirslice/slicer.go:159 | files with pairwise different names all keep their names |
| Relocator.PlanUpTo | cmd/dirslice/slicer.go:138-147 | the moves of the first `m` turns of the slice loop; described by `PlanUpToSources`, `PlanUpToDirs` and `PlanUpToDistinct` |
| Relocator.PlanUpToSources | cmd/dirslice/slicer.go:138-147 | the first `m` slices' moves move exactly those slices' files, in order |
| Relocator.PlanUpToDirs | cmd/dirslice/slicer.go:139-146 | each of those moves goes one level down, into one of the first `m` directories |
| Relocator.PlanUpToDistinct | cmd/dirslice/slicer.go:138-147 | with distinct directory names, no two moves of the run share a target |
| Relocator.Plan | cmd/dirslice/slicer.go:130-147 | all files into the target root when there are no names, otherwise slice `i` into directory `i`; described by `PlanMovesEachFileOnce`, `PlanTargetsDistinct` and `PlanSingleSlice` |
| Relocator.PlanMovesEachFileOnce | cmd/dirslice/slicer.go:130-147 | the whole run moves every sorted file exactly once, in sorted order |
| Relocator.PlanTargetsDistinct | cmd/dirslice/slicer.go:130-147 | no two moves of the run have the same target directory and name, compared exactly |
| Relocator.PlanSingleSlice | cmd/dirslice/slicer.go:132-147 | when all files fit into one slice, every move goes to the target root; otherwise every move goes one level down |
| Relocator.Found | cmd/dirslice/slicer.go:120-123 | the files the walk of the source root found, or none when the walk failed |
| Relocator.FailedWalkMovesNothing | cmd/dirslice/slicer.go:120-123 | when the walk fails, the run finds no files, creates no directory and moves nothing |
| Relocator.SliceDir | cmd/dirslice/slicer.go:118-148 | a run creates `Dirnames` of the sorted files and makes `Plan` of them |
| Relocator.MoveSlices | cmd/dirslice/slicer.go:138-147 | the loop over directory names moves slice `i` into directory `i`, slice after slice |
| Relocator.MoveSlice | cmd/dirslice/slicer.go:139-146 | one loop turn cuts slice `i` and appends its moves into `dirs[i]` |
| Relocator.SliceDirMovesFoundFiles | cmd/dirslice/slicer.go:118-148 | for any order the sort leaves the found files in, a run moves each of them exactly once; it moves no dot file and nothing below a dot directory, and no two moves have the same directory and name; in a tree where no directory holds two entries of one name, no file is moved twice |
| Relocator.FiveFilesDirnames | cmd/dirslice/slicer_test.go:113-142 | "a".."e" in slices of three are named "a-c" and "d-e" |
| Relocator.FiveFilesSlices | cmd/dirslice/slicer_test.go:113-142 | those files are cut into {a, b, c} and {d, e} |
| Relocator.FiveFilesPlan | cmd/dirslice/slicer_test.go:113-142 | their run is the moves of the first slice into "a-c", then those of the second into "d-e" |
| Relocator.PlanFiveFiles | cmd/dirslice/slicer_test.go:113-142 | a, b, c land in "a-c" and d, e in "d-e", each under its own name |
| Relocator.PlanOneFile | cmd/dirslice/slicer_test.go:144-165 | a single file lands directly in the target root under its own name |
| Relocator.PlanNoFiles | cmd/dirslice/slicer_test.go:167-186 | no files: no directories and no moves |

## Left out

- File system effects are not performed. `os.Open`, `ReadDir`, `os.MkdirAll` and `os.Rename` become values: the node tree that is walked, and the directory names and move list that a run yields.
- Errors from `os.MkdirAll` and `os.Rename` are ignored by the source and have no counterpart here.
- A rename onto a file that already exists in the target directory is not modelled. Such files are not consulted when names are made unique, and neither are names from another run.
- Paths are sequences of components. `filepath.Join` cleaning, the source and target root prefixes, and the `*string` sharing of directory names are not modelled.
- A read error in the middle of a directory and an open error are one case: an `Unreadable` node. Files read before the failure are dropped either way, as in the source.
- Error printing to standard error is not modelled.
- `Partition.CeilDivIsCeiling` models `math.Ceil` on `float64` as exact integer ceiling division. This is exact only while the counts convert to `float64` without rounding (below 2^53).
- Target names and directory names are compared exactly, as strings. `PlanTargetsDistinct`, `PlanUpToDistinct` and `SliceDirMovesFoundFiles` say that no move overwrites another only on a file system that neither folds case nor normalises Unicode. Elsewhere, `A` and `a`, or `A-B` and `a-b`, can land on one path, and the later `os.Rename` replaces the earlier file.
- `Sorting.SortByName` stands in for `sort.Slice`. The library algorithm and its order among equal names are not modelled. The model relies only on the result being a sorted permutation.
- Name order compares runes by code point. Go compares the UTF-8 bytes, which orders valid UTF-8 text the same way. Invalid UTF-8 is not modelled.
- `sliceSize >= 1` is a precondition. The command line parser (cli.go) rejects anything smaller. cli.go and main.go are not part of this model.
- Filenames are sequences of runes. Decoding bytes into runes, and the replacement of invalid UTF-8 by `getPrefix`, are not modelled.
