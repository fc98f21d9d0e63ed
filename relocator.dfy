/** The relocator and the top-level run of the slicer (`moveFiles`,
    `sliceDir`).  Renames and directory creation are not performed: each run
    yields the directories it creates under the target root and the list of
    moves it performs, in order. */
module Relocator {
  import opened Utils
  import opened Sets
  import opened Collector
  import opened Sorting
  import opened Partition

  /** One `os.Rename`: the file moved, the directory it lands in (relative to
      the target root; the root itself is the empty path) and its new name. */
  datatype Move = Move(source: FileLocation, targetDir: Path, targetName: string)

  function Names(files: seq<FileLocation>): (r: seq<string>)
    ensures |r| == |files|
    ensures forall i :: 0 <= i < |files| ==> r[i] == files[i].name
  {
    seq(|files|, i requires 0 <= i < |files| => files[i].name)
  }

  function Sources(moves: seq<Move>): (r: seq<FileLocation>)
    ensures |r| == |moves|
    ensures forall i :: 0 <= i < |moves| ==> r[i] == moves[i].source
  {
    seq(|moves|, i requires 0 <= i < |moves| => moves[i].source)
  }

  /** No two moves land on the same name in the same directory. */
  predicate DistinctTargets(moves: seq<Move>)
  {
    forall p, q :: 0 <= p < q < |moves| ==>
      moves[p].targetDir != moves[q].targetDir || moves[p].targetName != moves[q].targetName
  }

  // ---------------------------------------------------------------------
  // moveFiles
  // ---------------------------------------------------------------------

  /** The names `moveFiles` gives `files`, in order. */
  function TargetNames(files: seq<FileLocation>): (r: seq<string>)
    ensures |r| == |files|
  {
    AssignUnique(Names(files))
  }

  /** The moves `moveFiles` performs for `files` into `targetDir`: every file
      in order, each under its own name made unique within this call. */
  function PlannedMoves(targetDir: Path, files: seq<FileLocation>): (r: seq<Move>)
    ensures |r| == |files|
  {
    var targets := TargetNames(files);
    seq(|files|, i requires 0 <= i < |files| => Move(files[i], targetDir, targets[i]))
  }

  /** `moveFiles`: each file is moved into `targetDir` under its name made
      unique against the names already used in this call, which is then
      recorded. */
  method MoveFiles(targetDir: Path, files: seq<FileLocation>) returns (moves: seq<Move>)
    ensures moves == PlannedMoves(targetDir, files)
  {
    var seenFilenames := new Set<string>();
    moves := [];
    for i := 0 to |files|
      invariant moves == PlannedMoves(targetDir, files[..i])
      invariant seenFilenames.elems == Elems(TargetNames(files[..i]))
    {
      var e := files[i];
      var targetFilename := MakeUnique(e.name, seenFilenames);
      PlannedMovesStep(targetDir, files, i);
      moves := moves + [Move(e, targetDir, targetFilename)];
      seenFilenames.Put(targetFilename);
    }
    assert files[..|files|] == files;
  }

  /** One more file: it is moved under its name made unique against the
      names already given, which then include it. */
  lemma PlannedMovesStep(targetDir: Path, files: seq<FileLocation>, i: nat)
    requires i < |files|
    ensures var u := Uniquify(files[i].name, Elems(TargetNames(files[..i])));
            PlannedMoves(targetDir, files[..i + 1]) == PlannedMoves(targetDir, files[..i]) + [Move(files[i], targetDir, u)] &&
            Elems(TargetNames(files[..i + 1])) == Elems(TargetNames(files[..i])) + {u}
  {
    var names := Names(files[..i + 1]);
    assert names[..i] == Names(files[..i]);
    assert names[..i + 1] == names;
    AssignUniqueStep(names, i);
    var u := Uniquify(files[i].name, Elems(TargetNames(files[..i])));
    assert TargetNames(files[..i + 1]) == TargetNames(files[..i]) + [u];
    assert Elems(TargetNames(files[..i]) + [u]) == Elems(TargetNames(files[..i])) + {u};
  }

  /** Every file is moved once, in order, into `targetDir`; no two land on
      the same name; each keeps its name or gets a `(k)` suffix, and keeps it
      exactly when no earlier move of the call took that name. */
  lemma PlannedMovesProperties(targetDir: Path, files: seq<FileLocation>)
    ensures Sources(PlannedMoves(targetDir, files)) == files
    ensures forall mv :: mv in PlannedMoves(targetDir, files) ==> mv.targetDir == targetDir
    ensures DistinctTargets(PlannedMoves(targetDir, files))
  {
    AssignUniqueDistinct(Names(files));
  }

  lemma PlannedMoveName(targetDir: Path, files: seq<FileLocation>, i: nat)
    requires i < |files|
    ensures exists k :: 0 <= k <= i && PlannedMoves(targetDir, files)[i].targetName == Candidate(files[i].name, k)
    ensures PlannedMoves(targetDir, files)[i].targetName == files[i].name
        <==> forall j :: 0 <= j < i ==> PlannedMoves(targetDir, files)[j].targetName != files[i].name
  {
    var names := Names(files);
    var moves := PlannedMoves(targetDir, files);
    AssignUniqueSuffixed(names, i);
    AssignUniqueKeeps(names, i);
    assert forall j :: 0 <= j < i ==> moves[j].targetName == AssignUnique(names)[..i][j];
  }

  // ---------------------------------------------------------------------
  // sliceDir
  // ---------------------------------------------------------------------

  /** The moves of the first `m` slices, slice `i` into directory
      `dirnames[i]`. */
  function PlanUpTo(slices: seq<seq<FileLocation>>, dirnames: seq<string>, m: nat): seq<Move>
    requires m <= |dirnames| <= |slices|
  {
    if m == 0 then []
    else PlanUpTo(slices, dirnames, m - 1) + PlannedMoves([dirnames[m - 1]], slices[m - 1])
  }

  /** The moves `sliceDir` performs on the sorted file list: all files into
      the target root when there are no directory names, otherwise slice `i`
      into directory `i`. */
  function Plan(files: seq<FileLocation>, sliceSize: nat): seq<Move>
    requires sliceSize >= 1
  {
    var dirnames := Dirnames(files, sliceSize);
    DirnamesCount(files, sliceSize);
    if dirnames == [] then PlannedMoves([], files)
    else PlanUpTo(Slices(files, sliceSize), dirnames, |dirnames|)
  }

  lemma SourcesAppend(a: seq<Move>, b: seq<Move>)
    ensures Sources(a + b) == Sources(a) + Sources(b)
  {
  }

  /** The first `m` slices' moves move the files of those slices, in order. */
  lemma {:induction false} PlanUpToSources(slices: seq<seq<FileLocation>>, dirnames: seq<string>, m: nat)
    requires m <= |dirnames| <= |slices|
    ensures Sources(PlanUpTo(slices, dirnames, m)) == Flatten(slices[..m])
  {
    if m > 0 {
      var before := PlanUpTo(slices, dirnames, m - 1);
      var moved := PlannedMoves([dirnames[m - 1]], slices[m - 1]);
      PlanUpToSources(slices, dirnames, m - 1);
      PlannedMovesProperties([dirnames[m - 1]], slices[m - 1]);
      SourcesAppend(before, moved);
      assert slices[..m][..m - 1] == slices[..m - 1];
    }
  }

  /** Every move of the first `m` slices goes into one of the first `m`
      directories. */
  lemma {:induction false} PlanUpToDirs(slices: seq<seq<FileLocation>>, dirnames: seq<string>, m: nat)
    requires m <= |dirnames| <= |slices|
    ensures forall mv :: mv in PlanUpTo(slices, dirnames, m) ==>
              |mv.targetDir| == 1 && mv.targetDir[0] in dirnames[..m]
  {
    if m > 0 {
      PlanUpToDirs(slices, dirnames, m - 1);
      PlannedMovesProperties([dirnames[m - 1]], slices[m - 1]);
      assert dirnames[..m] == dirnames[..m - 1] + [dirnames[m - 1]];
    }
  }

  /** Two move lists that are each free of clashes stay free of clashes run
      one after the other when the second goes into a directory the first
      does not use. */
  lemma DistinctTargetsAppend(a: seq<Move>, b: seq<Move>, used: seq<string>, d: string)
    requires DistinctTargets(a) && DistinctTargets(b)
    requires forall x :: x in a ==> |x.targetDir| == 1 && x.targetDir[0] in used
    requires forall y :: y in b ==> y.targetDir == [d]
    requires d !in used
    ensures DistinctTargets(a + b)
  {
    var ab := a + b;
    forall p, q | 0 <= p < q < |ab|
      ensures ab[p].targetDir != ab[q].targetDir || ab[p].targetName != ab[q].targetName
    {
      if p < |a| && |a| <= q {
        assert ab[p] == a[p] && ab[p] in a;
        assert ab[q] == b[q - |a|] && ab[q] in b;
      } else if |a| <= p {
        assert ab[p] == b[p - |a|] && ab[q] == b[q - |a|];
      }
    }
  }

  lemma {:induction false} PlanUpToDistinct(slices: seq<seq<FileLocation>>, dirnames: seq<string>, m: nat)
    requires m <= |dirnames| <= |slices|
    requires forall i, j :: 0 <= i < j < |dirnames| ==> dirnames[i] != dirnames[j]
    ensures DistinctTargets(PlanUpTo(slices, dirnames, m))
  {
    if m > 0 {
      PlanUpToDistinct(slices, dirnames, m - 1);
      PlanUpToDirs(slices, dirnames, m - 1);
      PlannedMovesProperties([dirnames[m - 1]], slices[m - 1]);
      forall k | 0 <= k < m - 1
        ensures dirnames[k] != dirnames[m - 1]
      {
      }
      assert dirnames[m - 1] !in dirnames[..m - 1];
      DistinctTargetsAppend(PlanUpTo(slices, dirnames, m - 1), PlannedMoves([dirnames[m - 1]], slices[m - 1]),
                            dirnames[..m - 1], dirnames[m - 1]);
    }
  }

  /** Every sorted file is moved exactly once, in sorted order. */
  lemma PlanMovesEachFileOnce(files: seq<FileLocation>, sliceSize: nat)
    requires sliceSize >= 1
    ensures Sources(Plan(files, sliceSize)) == files
  {
    var dirnames := Dirnames(files, sliceSize);
    DirnamesCount(files, sliceSize);
    if dirnames == [] {
      PlannedMovesProperties([], files);
    } else {
      var slices := Slices(files, sliceSize);
      PlanUpToSources(slices, dirnames, |dirnames|);
      SlicesCoverAll(files, sliceSize);
      assert slices[..|dirnames|] == slices;
    }
  }

  /** No move overwrites another: targets are distinct across the whole
      run, because directory names are distinct and names within one
      directory are. */
  lemma PlanTargetsDistinct(files: seq<FileLocation>, sliceSize: nat)
    requires sliceSize >= 1
    ensures DistinctTargets(Plan(files, sliceSize))
  {
    var dirnames := Dirnames(files, sliceSize);
    DirnamesCount(files, sliceSize);
    if dirnames == [] {
      PlannedMovesProperties([], files);
    } else {
      DirnamesDistinct(files, sliceSize);
      PlanUpToDistinct(Slices(files, sliceSize), dirnames, |dirnames|);
    }
  }

  /** All files fit into one slice (or there are none) exactly when every
      move goes straight into the target root; otherwise every move goes
      one level down. */
  lemma PlanSingleSlice(files: seq<FileLocation>, sliceSize: nat)
    requires sliceSize >= 1
    ensures |files| <= sliceSize ==> forall mv :: mv in Plan(files, sliceSize) ==> mv.targetDir == []
    ensures |files| > sliceSize ==> forall mv :: mv in Plan(files, sliceSize) ==> |mv.targetDir| == 1
  {
    var dirnames := Dirnames(files, sliceSize);
    DirnamesCount(files, sliceSize);
    if dirnames == [] {
      PlannedMovesProperties([], files);
    } else {
      PlanUpToDirs(Slices(files, sliceSize), dirnames, |dirnames|);
    }
  }

  /** The files a run starts from: what the walk of the source root found,
      or nothing when the walk failed (the error is reported and the run goes
      on). */
  function Found(source: Node): seq<FileLocation>
  {
    match CollectedDir([], source)
    case Ok(files) => files
    case Err(_) => []
  }

  /** `sliceDir`: collect, sort by name, name the slices, then move all files
      into the target root (one slice) or each slice into its directory. */
  method SliceDir(source: Node, sliceSize: nat) returns (dirs: seq<string>, moves: seq<Move>)
    requires sliceSize >= 1
    ensures dirs == Dirnames(SortByName(Found(source)), sliceSize)
    ensures moves == Plan(SortByName(Found(source)), sliceSize)
  {
    var collected := CollectDir([], source);
    var files: seq<FileLocation> := [];
    if collected.Ok? {
      files := collected.value;
    }
    files := SortByName(files);
    dirs := MakeDirnames(files, sliceSize);
    DirnamesCount(files, sliceSize);
    if |dirs| == 0 {
      moves := MoveFiles([], files);
    } else {
      SlicesCutInto(files, sliceSize);
      moves := MoveSlices(files, sliceSize, dirs, Slices(files, sliceSize));
    }
  }

  /** The loop of `sliceDir` over the directory names: slice `i` (at most
      `sliceSize` files from `i * sliceSize`) is moved into `dirs[i]`. */
  method MoveSlices(files: seq<FileLocation>, sliceSize: nat, dirs: seq<string>, ghost slices: seq<seq<FileLocation>>)
    returns (moves: seq<Move>)
    requires sliceSize >= 1 && CutInto(files, sliceSize, slices) && |dirs| <= |slices|
    ensures moves == PlanUpTo(slices, dirs, |dirs|)
  {
    moves := [];
    for i := 0 to |dirs|
      invariant moves == PlanUpTo(slices, dirs, i)
    {
      moves := MoveSlice(files, sliceSize, dirs, slices, i, moves);
    }
  }

  /** One turn of that loop: cut slice `i` and move its files into
      `dirs[i]`, after the moves of the slices before it. */
  method MoveSlice(files: seq<FileLocation>, sliceSize: nat, dirs: seq<string>, ghost slices: seq<seq<FileLocation>>, i: nat, moves: seq<Move>)
    returns (next: seq<Move>)
    requires sliceSize >= 1 && CutInto(files, sliceSize, slices) && i < |dirs| <= |slices|
    requires moves == PlanUpTo(slices, dirs, i)
    ensures next == PlanUpTo(slices, dirs, i + 1)
  {
    var start := i * sliceSize;
    assert start == SliceStart(sliceSize, i) by {
      SliceStartIsProduct(sliceSize, i);
    }
    SliceStartInRange(|files|, sliceSize, i);
    var slice := files[start .. start + Min(sliceSize, |files| - start)];
    assert slice == Slice(files, sliceSize, i) == slices[i];
    var moved := MoveFiles([dirs[i]], slice);
    PlanUpToStep(slices, dirs, i, moves, moved);
    next := moves + moved;
  }

  /** One more slice appends exactly its moves. */
  lemma PlanUpToStep(slices: seq<seq<FileLocation>>, dirs: seq<string>, i: nat, moves: seq<Move>, moved: seq<Move>)
    requires i < |dirs| <= |slices|
    requires moves == PlanUpTo(slices, dirs, i) && moved == PlannedMoves([dirs[i]], slices[i])
    ensures moves + moved == PlanUpTo(slices, dirs, i + 1)
  {
  }

  /** A run whose walk fails creates no directory and moves nothing: the
      error is reported and the run goes on with no files. */
  lemma FailedWalkMovesNothing(source: Node, sliceSize: nat)
    requires sliceSize >= 1
    requires !source.Dir? || Blocked(source.entries)
    ensures Found(source) == []
    ensures Dirnames(SortByName(Found(source)), sliceSize) == []
    ensures Plan(SortByName(Found(source)), sliceSize) == []
  {
    CollectedDirFails([], source);
    var files := SortByName(Found(source));
    assert multiset(files) == multiset{};
    assert files == [];
    DirnamesCount(files, sliceSize);
  }

  /** What a run does with the source tree: every file the walk found is
      moved exactly once, nothing hidden is moved (no dot file and nothing
      below a dot directory), and no two moves land on the same target.
      When the tree is well formed, no file is moved twice.
      This holds for whatever order the sort leaves equal names in: `files`
      is any arrangement of the files found. */
  lemma SliceDirMovesFoundFiles(source: Node, files: seq<FileLocation>, sliceSize: nat)
    requires sliceSize >= 1
    requires multiset(files) == multiset(Found(source))
    ensures var moves := Plan(files, sliceSize);
            multiset(Sources(moves)) == multiset(Found(source)) &&
            DistinctTargets(moves) &&
            forall mv :: mv in moves ==>
              !Hidden(mv.source.name) &&
              forall k :: 0 <= k < |mv.source.dir| ==> !Hidden(mv.source.dir[k])
    ensures WellFormed(source) ==> NoDuplicates(Sources(Plan(files, sliceSize)))
  {
    var moves := Plan(files, sliceSize);
    PlanMovesEachFileOnce(files, sliceSize);
    PlanTargetsDistinct(files, sliceSize);
    if WellFormed(source) {
      if CollectedDir([], source).Ok? {
        CollectedDirNoDuplicates([], source);
      }
      NoDuplicatesPermutation(Found(source), files);
    }
    forall mv | mv in moves
      ensures !Hidden(mv.source.name)
      ensures forall k :: 0 <= k < |mv.source.dir| ==> !Hidden(mv.source.dir[k])
    {
      var p :| 0 <= p < |moves| && moves[p] == mv;
      assert Sources(moves)[p] == mv.source;
      assert mv.source in multiset(Found(source));
      var loc := mv.source;
      assert source.Dir? && CollectedEntries([], source.entries).Ok?;
      CollectedEntriesExact([], source.entries, loc);
      VisibleNotHidden([], source.entries, loc);
    }
  }

  // ---------------------------------------------------------------------
  // The runs of the slicer's own examples
  // ---------------------------------------------------------------------

  /** Files with pairwise different names all keep their names. */
  lemma PlannedMovesKeepNames(targetDir: Path, files: seq<FileLocation>)
    requires forall i, j :: 0 <= i < j < |files| ==> files[i].name != files[j].name
    ensures forall i :: 0 <= i < |files| ==> PlannedMoves(targetDir, files)[i] == Move(files[i], targetDir, files[i].name)
  {
    AssignUniqueNoCollision(Names(files));
  }

  function Root(name: string): FileLocation
  {
    FileLocation([], name)
  }

  /** The five files "a" .. "e" of the slicing example, all in the root. */
  function FiveFiles(): (r: seq<FileLocation>)
    ensures |r| == 5
  {
    [Root("a"), Root("b"), Root("c"), Root("d"), Root("e")]
  }

  /** In slices of three they make two slices, named "a-c" and "d-e". */
  lemma FiveFilesDirnames()
    ensures Dirnames(FiveFiles(), 3) == ["a-c", "d-e"]
  {
    var files := FiveFiles();
    assert NumSlices(5, 3) == 2 && PrefixLength(2) == 1;
    assert BaseDirname(files, 3, 0) == MakeDirname("a", "c", 1) == "a-c";
    assert SliceStart(3, 1) == 3 && SliceStart(3, 2) == 6;
    assert BaseDirname(files, 3, 1) == MakeDirname("d", "e", 1) == "d-e";
    assert BaseDirnames(files, 3) == ["a-c", "d-e"];
    AssignUniqueNoCollision(["a-c", "d-e"]);
  }

  lemma FiveFilesSlices()
    ensures Slices(FiveFiles(), 3) == [FiveFiles()[..3], FiveFiles()[3..]]
  {
    var files := FiveFiles();
    assert NumSlices(5, 3) == 2;
    assert SliceStart(3, 1) == 3;
    var ss := Slices(files, 3);
    assert ss[0] == Slice(files, 3, 0) == files[0 .. 3] == files[..3];
    assert ss[1] == Slice(files, 3, 1) == files[3 .. 5] == files[3..];
    assert |ss| == 2;
    assert ss == [files[..3], files[3..]];
  }

  /** The run of those five files is the moves of "a" .. "c" into "a-c"
      followed by those of "d", "e" into "d-e". */
  lemma FiveFilesPlan()
    ensures Plan(FiveFiles(), 3) == PlannedMoves(["a-c"], FiveFiles()[..3]) + PlannedMoves(["d-e"], FiveFiles()[3..])
  {
    var files := FiveFiles();
    FiveFilesDirnames();
    FiveFilesSlices();
    var slices, dirnames := Slices(files, 3), ["a-c", "d-e"];
    assert Plan(files, 3) == PlanUpTo(slices, dirnames, 2);
    assert PlanUpTo(slices, dirnames, 1) == [] + PlannedMoves(["a-c"], files[..3]);
  }

  /** "a", "b", "c" go into "a-c" and "d", "e" into "d-e", each under its
      own name. */
  lemma PlanFiveFiles()
    ensures Plan(FiveFiles(), 3)
         == [Move(Root("a"), ["a-c"], "a"), Move(Root("b"), ["a-c"], "b"), Move(Root("c"), ["a-c"], "c"),
             Move(Root("d"), ["d-e"], "d"), Move(Root("e"), ["d-e"], "e")]
  {
    FiveFilesPlan();
    FiveFilesFirstSlice();
    FiveFilesSecondSlice();
  }

  lemma FiveFilesFirstSlice()
    ensures PlannedMoves(["a-c"], FiveFiles()[..3])
         == [Move(Root("a"), ["a-c"], "a"), Move(Root("b"), ["a-c"], "b"), Move(Root("c"), ["a-c"], "c")]
  {
    PlannedMovesKeepNames(["a-c"], FiveFiles()[..3]);
  }

  lemma FiveFilesSecondSlice()
    ensures PlannedMoves(["d-e"], FiveFiles()[3..]) == [Move(Root("d"), ["d-e"], "d"), Move(Root("e"), ["d-e"], "e")]
  {
    PlannedMovesKeepNames(["d-e"], FiveFiles()[3..]);
  }

  /** A single file fits into one slice and is moved into the target root
      under its own name. */
  lemma PlanOneFile()
    ensures Dirnames([Root("a")], 3) == []
    ensures Plan([Root("a")], 3) == [Move(Root("a"), [], "a")]
  {
    assert NumSlices(1, 3) == 1;
    PlannedMovesKeepNames([], [Root("a")]);
  }

  /** No files: no directories and no moves. */
  lemma PlanNoFiles()
    ensures Dirnames([], 3) == []
    ensures Plan([], 3) == []
  {
    assert NumSlices(0, 3) == 0;
  }
}
