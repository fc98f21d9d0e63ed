/** The ordering step of `sliceDir`: the collected files are sorted by name,
    ascending.  Names compare character by character (runes compare by code
    point, which is the order Go's byte-wise string comparison gives for
    UTF-8 text).  The library sort the source calls is not stable; the model
    sorts by insertion and relies only on the result being an ascending
    permutation of the input. */
module Sorting {
  import opened Collector

  /** `a <= b` in lexicographic order. */
  predicate NameLeq(a: string, b: string)
    decreases a
  {
    a == [] || (b != [] && (a[0] < b[0] || (a[0] == b[0] && NameLeq(a[1..], b[1..]))))
  }

  lemma {:induction false} NameLeqTotal(a: string, b: string)
    ensures NameLeq(a, b) || NameLeq(b, a)
    decreases a
  {
    if a != [] && b != [] && a[0] == b[0] {
      NameLeqTotal(a[1..], b[1..]);
    }
  }

  lemma {:induction false} NameLeqTransitive(a: string, b: string, c: string)
    requires NameLeq(a, b) && NameLeq(b, c)
    ensures NameLeq(a, c)
    decreases a
  {
    if a != [] && a[0] == b[0] && b[0] == c[0] {
      NameLeqTransitive(a[1..], b[1..], c[1..]);
    }
  }

  /** Ascending by name: no later file has a smaller name. */
  predicate SortedByName(files: seq<FileLocation>)
  {
    forall i, j :: 0 <= i < j < |files| ==> NameLeq(files[i].name, files[j].name)
  }

  /** Inserts `x` into an ascending list, before the first larger name. */
  function Insert(x: FileLocation, files: seq<FileLocation>): (r: seq<FileLocation>)
    requires SortedByName(files)
    ensures SortedByName(r)
    ensures multiset(r) == multiset(files) + multiset{x}
  {
    if files == [] then [x]
    else if NameLeq(x.name, files[0].name) then
      InsertFront(x, files);
      [x] + files
    else
      var rest := Insert(x, files[1..]);
      InsertBehind(x, files, rest);
      [files[0]] + rest
  }

  /** `x` goes in front when its name is not larger than the first one. */
  lemma InsertFront(x: FileLocation, files: seq<FileLocation>)
    requires SortedByName(files) && files != [] && NameLeq(x.name, files[0].name)
    ensures SortedByName([x] + files)
  {
    var r := [x] + files;
    forall i, j | 0 <= i < j < |r|
      ensures NameLeq(r[i].name, r[j].name)
    {
      if i == 0 && j > 1 {
        NameLeqTransitive(x.name, files[0].name, files[j - 1].name);
      } else if i > 0 {
        assert r[i] == files[i - 1] && r[j] == files[j - 1];
      }
    }
  }

  /** Otherwise the first file stays in front of the insertion into the
      rest. */
  lemma InsertBehind(x: FileLocation, files: seq<FileLocation>, rest: seq<FileLocation>)
    requires SortedByName(files) && files != [] && !NameLeq(x.name, files[0].name)
    requires SortedByName(rest) && multiset(rest) == multiset(files[1..]) + multiset{x}
    ensures SortedByName([files[0]] + rest)
    ensures multiset([files[0]] + rest) == multiset(files) + multiset{x}
  {
    assert files == [files[0]] + files[1..];
    NameLeqTotal(x.name, files[0].name);
    var r := [files[0]] + rest;
    forall j | 1 <= j < |r|
      ensures NameLeq(files[0].name, r[j].name)
    {
      assert r[j] == rest[j - 1];
      assert r[j] in multiset(rest);
      if r[j] != x {
        assert r[j] in multiset(files[1..]);
        var k :| 0 <= k < |files[1..]| && files[1..][k] == r[j];
        assert files[k + 1] == r[j];
      }
    }
    forall i, j | 0 <= i < j < |r|
      ensures NameLeq(r[i].name, r[j].name)
    {
      if i > 0 {
        assert r[i] == rest[i - 1] && r[j] == rest[j - 1];
      }
    }
  }

  /** `sort.Slice(files, by name)`: an ascending permutation of `files`. */
  function SortByName(files: seq<FileLocation>): (r: seq<FileLocation>)
    ensures SortedByName(r)
    ensures multiset(r) == multiset(files)
  {
    if files == [] then []
    else
      assert files == [files[0]] + files[1..];
      Insert(files[0], SortByName(files[1..]))
  }
}
