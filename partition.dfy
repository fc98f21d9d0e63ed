/** The partition namer of the slicer: how many slices a sorted file list is
    cut into, where each slice starts and ends, and the directory name each
    slice gets (`makeDirname`, `makeDirnames`, and the bounds `sliceDir`
    computes). */
module Partition {
  import opened Utils
  import opened Sets
  import opened Collector

  /** `int(math.Ceil(float64(a) / float64(b)))` for a positive `b`: the
      number of pieces of `b` items needed to hold `a` items, counted by
      taking `b` away until nothing is left. */
  function CeilDiv(a: nat, b: nat): nat
    requires b >= 1
    decreases a
  {
    if a == 0 then 0 else if a <= b then 1 else 1 + CeilDiv(a - b, b)
  }

  /** `CeilDiv(a, b)` is the ceiling of `a / b`: the least `r` with
      `a <= r * b`. */
  lemma {:induction false} CeilDivIsCeiling(a: nat, b: nat)
    requires b >= 1
    ensures a <= CeilDiv(a, b) * b < a + b
    decreases a
  {
    if a > b {
      CeilDivIsCeiling(a - b, b);
      var r := CeilDiv(a - b, b);
      assert (1 + r) * b == b + r * b;
    }
  }

  /** The number of slices of `count` files at `sliceSize` files per slice. */
  function NumSlices(count: nat, sliceSize: nat): nat
    requires sliceSize >= 1
  {
    CeilDiv(count, sliceSize)
  }

  /** The number of runes taken from each boundary name: one more for every
      26 slices. */
  function PrefixLength(numOfSlices: nat): nat
  {
    CeilDiv(numOfSlices, 26)
  }

  /** No slice at all for no files, a single slice exactly when all files
      fit into one, more than one otherwise. */
  lemma NumSlicesCases(count: nat, sliceSize: nat)
    requires sliceSize >= 1
    ensures NumSlices(count, sliceSize) == 0 <==> count == 0
    ensures NumSlices(count, sliceSize) <= 1 <==> count <= sliceSize
  {
    if count > sliceSize {
      assert CeilDiv(count - sliceSize, sliceSize) >= 1;
    }
  }

  /** Index of the first file of slice `i`, `i * sliceSize`, counted up one
      slice at a time. */
  function SliceStart(sliceSize: nat, i: nat): nat
  {
    if i == 0 then 0 else SliceStart(sliceSize, i - 1) + sliceSize
  }

  lemma {:induction false} SliceStartIsProduct(sliceSize: nat, i: nat)
    ensures SliceStart(sliceSize, i) == i * sliceSize
  {
    if i > 0 {
      SliceStartIsProduct(sliceSize, i - 1);
      assert i * sliceSize == (i - 1) * sliceSize + sliceSize;
    }
  }

  /** Every slice starts inside the list. */
  lemma {:induction false} SliceStartInRange(count: nat, sliceSize: nat, i: nat)
    requires sliceSize >= 1 && i < NumSlices(count, sliceSize)
    ensures SliceStart(sliceSize, i) < count
  {
    if i > 0 {
      SliceStartInRange(count - sliceSize, sliceSize, i - 1);
    }
  }

  /** The slice after the last one would start past the end of the list. */
  lemma {:induction false} SliceStartPastEnd(count: nat, sliceSize: nat)
    requires sliceSize >= 1
    ensures count <= SliceStart(sliceSize, NumSlices(count, sliceSize))
    decreases count
  {
    if count > sliceSize {
      SliceStartPastEnd(count - sliceSize, sliceSize);
    }
  }

  /** The end (exclusive) of slice `i` as `sliceDir` computes it. */
  function SliceEnd(count: nat, sliceSize: nat, i: nat): (e: nat)
    requires sliceSize >= 1 && i < NumSlices(count, sliceSize)
    ensures SliceStart(sliceSize, i) < e <= count
  {
    SliceStartInRange(count, sliceSize, i);
    SliceStart(sliceSize, i) + Min(sliceSize, count - SliceStart(sliceSize, i))
  }

  /** `sliceDir`'s end of slice `i` is the bound `makeDirnames` takes the
      last file of slice `i` from. */
  lemma SliceEndAgrees(count: nat, sliceSize: nat, i: nat)
    requires sliceSize >= 1 && i < NumSlices(count, sliceSize)
    ensures SliceEnd(count, sliceSize, i) == Min(SliceStart(sliceSize, i + 1), count)
  {
  }

  /** `files[start : start+min(sliceSize, len(files)-start)]`, slice `i`. */
  function Slice<T>(files: seq<T>, sliceSize: nat, i: nat): seq<T>
    requires sliceSize >= 1 && i < NumSlices(|files|, sliceSize)
  {
    var hi := SliceEnd(|files|, sliceSize, i);
    files[SliceStart(sliceSize, i) .. hi]
  }

  /** Every slice holds between 1 and `sliceSize` files, every slice but the
      last exactly `sliceSize`, and its first and last files are the boundary
      files `makeDirnames` names it after. */
  lemma SliceShape<T>(files: seq<T>, sliceSize: nat, i: nat)
    requires sliceSize >= 1 && i < NumSlices(|files|, sliceSize)
    ensures 1 <= |Slice(files, sliceSize, i)| <= sliceSize
    ensures i + 1 < NumSlices(|files|, sliceSize) ==> |Slice(files, sliceSize, i)| == sliceSize
    ensures Slice(files, sliceSize, i)[0] == files[SliceStart(sliceSize, i)]
    ensures Slice(files, sliceSize, i)[|Slice(files, sliceSize, i)| - 1]
         == files[Min(SliceStart(sliceSize, i + 1), |files|) - 1]
  {
    if i + 1 < NumSlices(|files|, sliceSize) {
      SliceStartInRange(|files|, sliceSize, i + 1);
    }
  }

  /** All slices of the list, in order. */
  function Slices<T>(files: seq<T>, sliceSize: nat): (r: seq<seq<T>>)
    requires sliceSize >= 1
    ensures |r| == NumSlices(|files|, sliceSize)
  {
    seq(NumSlices(|files|, sliceSize), i requires 0 <= i < NumSlices(|files|, sliceSize) => Slice(files, sliceSize, i))
  }

  /** `slices` are the first slices of the list, as `sliceDir` cuts it. */
  ghost predicate CutInto<T>(files: seq<T>, sliceSize: nat, slices: seq<seq<T>>)
    requires sliceSize >= 1
  {
    |slices| <= NumSlices(|files|, sliceSize) &&
    forall i :: 0 <= i < |slices| ==> slices[i] == Slice(files, sliceSize, i)
  }

  /** Slice `i` starts inside the list and is exactly
      `files[start : start+min(sliceSize, len(files)-start)]`. */
  lemma SlicesCutInto<T>(files: seq<T>, sliceSize: nat)
    requires sliceSize >= 1
    ensures CutInto(files, sliceSize, Slices(files, sliceSize))
    ensures forall i :: 0 <= i < NumSlices(|files|, sliceSize) ==>
      SliceStart(sliceSize, i) < |files| &&
      Slices(files, sliceSize)[i] == files[SliceStart(sliceSize, i) .. SliceStart(sliceSize, i) + Min(sliceSize, |files| - SliceStart(sliceSize, i))]
  {
    forall i | 0 <= i < NumSlices(|files|, sliceSize)
      ensures SliceStart(sliceSize, i) < |files|
    {
      SliceStartInRange(|files|, sliceSize, i);
    }
  }

  /** Lists laid end to end. */
  function Flatten<T>(ss: seq<seq<T>>): seq<T>
  {
    if ss == [] then [] else Flatten(ss[..|ss| - 1]) + ss[|ss| - 1]
  }

  lemma {:induction false} SlicesPrefix<T>(files: seq<T>, sliceSize: nat, m: nat)
    requires sliceSize >= 1 && m <= NumSlices(|files|, sliceSize)
    ensures Flatten(Slices(files, sliceSize)[..m]) == files[..Min(SliceStart(sliceSize, m), |files|)]
  {
    if m > 0 {
      var ss := Slices(files, sliceSize)[..m];
      assert ss[..m - 1] == Slices(files, sliceSize)[..m - 1];
      assert ss[m - 1] == Slice(files, sliceSize, m - 1);
      SlicesPrefix(files, sliceSize, m - 1);
      assert Flatten(ss) == Flatten(ss[..m - 1]) + ss[m - 1];
      var lo, hi := SliceStart(sliceSize, m - 1), SliceEnd(|files|, sliceSize, m - 1);
      SliceStartInRange(|files|, sliceSize, m - 1);
      assert Flatten(ss[..m - 1]) == files[..lo];
      SliceEndAgrees(|files|, sliceSize, m - 1);
      assert hi == Min(SliceStart(sliceSize, m), |files|);
      assert ss[m - 1] == files[lo..hi];
      PrefixJoin(files, lo, hi);
    }
  }

  /** The slices partition the list: laid end to end they are the list. */
  lemma SlicesCoverAll<T>(files: seq<T>, sliceSize: nat)
    requires sliceSize >= 1
    ensures Flatten(Slices(files, sliceSize)) == files
  {
    var ss := Slices(files, sliceSize);
    SlicesPrefix(files, sliceSize, |ss|);
    SliceStartPastEnd(|files|, sliceSize);
    assert ss[..|ss|] == ss;
  }

  // ---------------------------------------------------------------------
  // Directory names
  // ---------------------------------------------------------------------

  /** `makeDirname`: the first `prefixLength` runes of the first name, a
      dash, and the first `prefixLength` runes of the last name (a name
      shorter than that is taken whole). */
  function MakeDirname(startFilename: string, endFilename: string, prefixLength: nat): (r: string)
    ensures var m := Min(prefixLength, |startFilename|);
            m < |r| && r[..m] == startFilename[..m] && r[m] == '-' &&
            r[m + 1..] == endFilename[..Min(prefixLength, |endFilename|)]
  {
    var startPrefix := GetPrefix(startFilename, prefixLength);
    var endPrefix := GetPrefix(endFilename, prefixLength);
    assert (startPrefix + "-" + endPrefix)[..|startPrefix|] == startPrefix;
    startPrefix + "-" + endPrefix
  }

  /** The name slice `i` would get before collisions are resolved. */
  function BaseDirname(files: seq<FileLocation>, sliceSize: nat, i: nat): string
    requires sliceSize >= 1 && i < NumSlices(|files|, sliceSize)
  {
    SliceStartInRange(|files|, sliceSize, i);
    MakeDirname(files[SliceStart(sliceSize, i)].name,
                files[Min(SliceStart(sliceSize, i + 1), |files|) - 1].name,
                PrefixLength(NumSlices(|files|, sliceSize)))
  }

  function BaseDirnames(files: seq<FileLocation>, sliceSize: nat): (r: seq<string>)
    requires sliceSize >= 1
    ensures |r| == NumSlices(|files|, sliceSize)
  {
    seq(NumSlices(|files|, sliceSize), i requires 0 <= i < NumSlices(|files|, sliceSize) => BaseDirname(files, sliceSize, i))
  }

  /** Candidate `i` is built from the boundary files of slice `i`. */
  lemma BaseDirnameOf(files: seq<FileLocation>, sliceSize: nat, i: nat, first: string, last: string, prefixLength: nat)
    requires sliceSize >= 1 && i < NumSlices(|files|, sliceSize)
    requires SliceStart(sliceSize, i) < |files|
    requires first == files[SliceStart(sliceSize, i)].name
    requires last == files[Min(SliceStart(sliceSize, i + 1), |files|) - 1].name
    requires prefixLength == PrefixLength(NumSlices(|files|, sliceSize))
    ensures BaseDirnames(files, sliceSize)[i] == MakeDirname(first, last, prefixLength)
  {
  }

  /** The directory names `makeDirnames` returns: none for a single slice,
      otherwise one per slice, made unique in slice order. */
  function Dirnames(files: seq<FileLocation>, sliceSize: nat): seq<string>
    requires sliceSize >= 1
  {
    if NumSlices(|files|, sliceSize) == 1 then [] else AssignUnique(BaseDirnames(files, sliceSize))
  }

  /** No names exactly when all files fit into one slice (including no files
      at all); otherwise one name per slice. */
  lemma DirnamesCount(files: seq<FileLocation>, sliceSize: nat)
    requires sliceSize >= 1
    ensures Dirnames(files, sliceSize) == [] <==> |files| <= sliceSize
    ensures |files| > sliceSize ==> |Dirnames(files, sliceSize)| == NumSlices(|files|, sliceSize)
  {
    NumSlicesCases(|files|, sliceSize);
  }

  /** The names of one call are pairwise distinct. */
  lemma DirnamesDistinct(files: seq<FileLocation>, sliceSize: nat)
    requires sliceSize >= 1
    ensures forall i, j :: 0 <= i < j < |Dirnames(files, sliceSize)| ==>
              Dirnames(files, sliceSize)[i] != Dirnames(files, sliceSize)[j]
  {
    AssignUniqueDistinct(BaseDirnames(files, sliceSize));
  }

  /** Name `i` is the boundary name of slice `i`, possibly with a `(k)`
      suffix. */
  lemma DirnamesSuffixed(files: seq<FileLocation>, sliceSize: nat, i: nat)
    requires sliceSize >= 1 && i < |Dirnames(files, sliceSize)|
    ensures exists k :: 0 <= k <= i && Dirnames(files, sliceSize)[i] == Candidate(BaseDirname(files, sliceSize, i), k)
  {
    AssignUniqueSuffixed(BaseDirnames(files, sliceSize), i);
  }

  /** `makeDirnames`: one candidate per slice, made unique against the names
      already handed out, then recorded. */
  method MakeDirnames(files: seq<FileLocation>, sliceSize: nat) returns (result: seq<string>)
    requires sliceSize >= 1
    ensures result == Dirnames(files, sliceSize)
  {
    var numOfSlices := NumSlices(|files|, sliceSize);
    if numOfSlices == 1 {
      return [];
    }
    var prefixLength := PrefixLength(numOfSlices);
    var seenDirnames := new Set<string>();
    ghost var cands := BaseDirnames(files, sliceSize);
    result := [];
    for i := 0 to numOfSlices
      invariant result == AssignUnique(cands[..i])
      invariant seenDirnames.elems == Elems(result)
    {
      result := NameSlice(files, sliceSize, prefixLength, i, seenDirnames, result);
    }
    assert cands[..numOfSlices] == cands;
  }

  /** One turn of that loop: slice `i` is named after its boundary files,
      the name is made unique against the names handed out so far and
      recorded. */
  method NameSlice(files: seq<FileLocation>, sliceSize: nat, prefixLength: nat, i: nat,
                   seenDirnames: Set<string>, result: seq<string>) returns (next: seq<string>)
    requires sliceSize >= 1 && i < NumSlices(|files|, sliceSize)
    requires prefixLength == PrefixLength(NumSlices(|files|, sliceSize))
    requires result == AssignUnique(BaseDirnames(files, sliceSize)[..i]) && seenDirnames.elems == Elems(result)
    modifies seenDirnames
    ensures next == AssignUnique(BaseDirnames(files, sliceSize)[..i + 1]) && seenDirnames.elems == Elems(next)
  {
    ghost var cands := BaseDirnames(files, sliceSize);
    var first, last := BoundaryNames(files, sliceSize, i);
    var dirname := MakeDirname(first, last, prefixLength);
    BaseDirnameOf(files, sliceSize, i, first, last, prefixLength);
    dirname := MakeUnique(dirname, seenDirnames);
    seenDirnames.Put(dirname);
    next := result + [dirname];
    AssignUniqueStep(cands, i);
    AssignUniqueStepElems(cands, i);
  }

  /** The names of the first and last files of slice `i`, read at
      `i * sliceSize` and `min((i + 1) * sliceSize, len(files)) - 1`. */
  method BoundaryNames(files: seq<FileLocation>, sliceSize: nat, i: nat) returns (first: string, last: string)
    requires sliceSize >= 1 && i < NumSlices(|files|, sliceSize)
    ensures SliceStart(sliceSize, i) < |files|
    ensures first == files[SliceStart(sliceSize, i)].name
    ensures last == files[Min(SliceStart(sliceSize, i + 1), |files|) - 1].name
  {
    var start, end := i * sliceSize, (i + 1) * sliceSize;
    assert start == SliceStart(sliceSize, i) && end == SliceStart(sliceSize, i + 1) by {
      SliceStartIsProduct(sliceSize, i);
      SliceStartIsProduct(sliceSize, i + 1);
    }
    SliceStartInRange(|files|, sliceSize, i);
    first := files[start].name;
    last := files[Min(end, |files|) - 1].name;
  }

  /** The thirty files "00" .. "29" of the naming example, all in the root. */
  function NumberedFiles(): (r: seq<FileLocation>)
    ensures |r| == 30
  {
    seq(30, i requires 0 <= i < 30 => FileLocation([], [DigitChar(i / 10), DigitChar(i % 10)]))
  }

  /** Slice `k` of those files in slices of ten runs from "k0" to "k9" and
      its candidate name is "k-k". */
  lemma NumberedFilesCandidate(k: nat)
    requires k < 3
    ensures NumSlices(30, 10) == 3
    ensures BaseDirname(NumberedFiles(), 10, k) == [DigitChar(k), '-', DigitChar(k)]
  {
    var files := NumberedFiles();
    assert NumSlices(30, 10) == 3;
    assert PrefixLength(3) == 1;
    SliceStartIsProduct(10, k);
    SliceStartIsProduct(10, k + 1);
    assert Min(SliceStart(10, k + 1), 30) - 1 == 10 * k + 9;
    assert files[10 * k].name[..1] == [DigitChar(k)];
    assert files[10 * k + 9].name[..1] == [DigitChar(k)];
  }

  /** Thirty files "00" .. "29" in slices of ten get "0-0", "1-1", "2-2". */
  lemma DirnamesThirtyFiles()
    ensures Dirnames(NumberedFiles(), 10) == ["0-0", "1-1", "2-2"]
  {
    var files := NumberedFiles();
    NumberedFilesCandidate(0);
    NumberedFilesCandidate(1);
    NumberedFilesCandidate(2);
    assert BaseDirnames(files, 10) == ["0-0", "1-1", "2-2"];
    AssignUniqueNoCollision(["0-0", "1-1", "2-2"]);
  }
}
