/** The entry collector of the slicer (`collectDir` / `collectDirEntries`):
    a recursive walk over a source tree that skips every entry whose name
    starts with a dot, hidden directories with everything below them.

    The file system is an abstract tree of `Node`s.  A directory that cannot
    be opened or read is an `Unreadable` node; reaching one stops the walk
    with an error naming its path. */
module Collector {
  import opened Utils

  /** A directory path relative to the source root, one component per
      element; the root itself (".") is the empty path. */
  type Path = seq<string>

  /** `fileLocation`: the directory a file was found in, and its name. */
  datatype FileLocation = FileLocation(dir: Path, name: string)

  datatype Node =
    | File(name: string)
    | Dir(name: string, entries: seq<Node>)
    | Unreadable(name: string)

  /** The outcome of a walk: the files found, or the path of the directory
      whose opening or reading failed. */
  datatype Result<T> = Ok(value: T) | Err(path: Path)

  /** Entries are read from an open directory this many at a time. */
  const StatChunkSize: nat := 4096

  /** A dot file or dot directory (`strings.HasPrefix(name, ".")`). */
  predicate Hidden(name: string)
  {
    |name| > 0 && name[0] == '.'
  }

  /** Sequencing of two walks: the first error wins, otherwise the file
      lists are concatenated in order. */
  function Then(a: Result<seq<FileLocation>>, b: Result<seq<FileLocation>>): (r: Result<seq<FileLocation>>)
    ensures r.Ok? <==> a.Ok? && b.Ok?
    ensures r.Ok? ==> r.value == a.value + b.value
    ensures a.Err? ==> r == a
    ensures a.Ok? && b.Err? ==> r == b
  {
    match a
    case Err(_) => a
    case Ok(xs) =>
      match b
      case Err(_) => b
      case Ok(ys) => Ok(xs + ys)
  }

  // ---------------------------------------------------------------------
  // The walk as functions
  // ---------------------------------------------------------------------

  /** What the walk yields for the entries `entries` of directory `sub`. */
  function CollectedEntries(sub: Path, entries: seq<Node>): Result<seq<FileLocation>>
    decreases entries
  {
    if entries == [] then Ok([])
    else Then(CollectedEntry(sub, entries[0]), CollectedEntries(sub, entries[1..]))
  }

  /** What the walk yields for one entry of directory `sub`. */
  function CollectedEntry(sub: Path, e: Node): Result<seq<FileLocation>>
    decreases e, 1
  {
    if Hidden(e.name) then Ok([])
    else if e.File? then Ok([FileLocation(sub, e.name)])
    else CollectedDir(sub + [e.name], e)
  }

  /** What the walk yields for the directory `dir` found at path `sub`. */
  function CollectedDir(sub: Path, dir: Node): Result<seq<FileLocation>>
    decreases dir, 0
  {
    if dir.Dir? then CollectedEntries(sub, dir.entries) else Err(sub)
  }

  lemma ThenAssociative(a: Result<seq<FileLocation>>, b: Result<seq<FileLocation>>, c: Result<seq<FileLocation>>)
    ensures Then(Then(a, b), c) == Then(a, Then(b, c))
  {
    if a.Ok? && b.Ok? && c.Ok? {
      assert (a.value + b.value) + c.value == a.value + (b.value + c.value);
    }
  }

  lemma {:induction false} CollectedEntriesAppend(sub: Path, a: seq<Node>, b: seq<Node>)
    ensures CollectedEntries(sub, a + b) == Then(CollectedEntries(sub, a), CollectedEntries(sub, b))
    decreases a
  {
    if a == [] {
      assert a + b == b;
      assert CollectedEntries(sub, b).Ok? ==> [] + CollectedEntries(sub, b).value == CollectedEntries(sub, b).value;
    } else {
      assert (a + b)[1..] == a[1..] + b;
      CollectedEntriesAppend(sub, a[1..], b);
      ThenAssociative(CollectedEntry(sub, a[0]), CollectedEntries(sub, a[1..]), CollectedEntries(sub, b));
    }
  }

  // ---------------------------------------------------------------------
  // Which files the walk is meant to find
  // ---------------------------------------------------------------------

  /** `loc` is a file under `entries` (found in directory `sub`) reached
      only through entries that are not hidden. */
  ghost predicate Visible(sub: Path, entries: seq<Node>, loc: FileLocation)
    decreases entries
  {
    exists i :: 0 <= i < |entries| && VisibleUnder(sub, entries[i], loc)
  }

  ghost predicate VisibleUnder(sub: Path, e: Node, loc: FileLocation)
    decreases e
  {
    !Hidden(e.name) &&
    match e
    case File(n) => loc == FileLocation(sub, n)
    case Dir(n, es) => Visible(sub + [n], es, loc)
    case Unreadable(_) => false
  }

  /** One entry of a successful walk yields exactly its visible files. */
  lemma {:induction false} CollectedEntryExact(sub: Path, e: Node, loc: FileLocation)
    requires CollectedEntry(sub, e).Ok?
    ensures loc in CollectedEntry(sub, e).value <==> VisibleUnder(sub, e, loc)
    decreases e
  {
    if !Hidden(e.name) && !e.File? {
      assert CollectedEntry(sub, e) == CollectedDir(sub + [e.name], e);
      assert e.Dir?;
      assert CollectedDir(sub + [e.name], e) == CollectedEntries(sub + [e.name], e.entries);
      CollectedEntriesExact(sub + [e.name], e.entries, loc);
    }
  }

  /** A successful walk yields exactly the visible files: every file it
      yields is visible, and every visible file is yielded. */
  lemma {:induction false} CollectedEntriesExact(sub: Path, entries: seq<Node>, loc: FileLocation)
    requires CollectedEntries(sub, entries).Ok?
    ensures loc in CollectedEntries(sub, entries).value <==> Visible(sub, entries, loc)
    decreases entries
  {
    if entries != [] {
      var e, rest := entries[0], entries[1..];
      assert CollectedEntries(sub, entries) == Then(CollectedEntry(sub, e), CollectedEntries(sub, rest));
      CollectedEntryExact(sub, e, loc);
      CollectedEntriesExact(sub, rest, loc);
      assert Visible(sub, entries, loc) <==> VisibleUnder(sub, e, loc) || Visible(sub, rest, loc) by {
        if Visible(sub, rest, loc) {
          var i :| 0 <= i < |rest| && VisibleUnder(sub, rest[i], loc);
          assert entries[i + 1] == rest[i];
        }
        if Visible(sub, entries, loc) {
          var i :| 0 <= i < |entries| && VisibleUnder(sub, entries[i], loc);
          if i > 0 {
            assert rest[i - 1] == entries[i];
          }
        }
        if VisibleUnder(sub, e, loc) {
          assert entries[0] == e;
        }
      }
    }
  }

  /** Nothing hidden is ever yielded: a visible file has a name that does
      not start with a dot, lies below `sub`, and is reached only through
      directories whose names do not start with a dot. */
  lemma {:induction false} VisibleNotHidden(sub: Path, entries: seq<Node>, loc: FileLocation)
    requires Visible(sub, entries, loc)
    ensures !Hidden(loc.name)
    ensures |sub| <= |loc.dir| && loc.dir[..|sub|] == sub
    ensures forall k :: |sub| <= k < |loc.dir| ==> !Hidden(loc.dir[k])
    decreases entries
  {
    var i :| 0 <= i < |entries| && VisibleUnder(sub, entries[i], loc);
    var e := entries[i];
    if e.Dir? {
      VisibleNotHidden(sub + [e.name], e.entries, loc);
      assert loc.dir[..|sub| + 1] == sub + [e.name];
      assert loc.dir[..|sub|] == (sub + [e.name])[..|sub|];
    }
  }

  // ---------------------------------------------------------------------
  // Each file once
  // ---------------------------------------------------------------------

  /** No element occurs twice. */
  ghost predicate NoDuplicates<T>(s: seq<T>)
  {
    forall i, j :: 0 <= i < j < |s| ==> s[i] != s[j]
  }

  /** No two entries of one directory share a name. */
  ghost predicate DistinctNames(entries: seq<Node>)
  {
    forall i, j :: 0 <= i < j < |entries| ==> entries[i].name != entries[j].name
  }

  /** A tree as a file system holds it: in every directory, at every depth,
      the entry names are pairwise different. */
  ghost predicate WellFormed(n: Node)
    decreases n
  {
    match n
    case Dir(_, es) => DistinctNames(es) && forall i :: 0 <= i < |es| ==> WellFormed(es[i])
    case _ => true
  }

  /** Without duplicates exactly when every element is counted at most
      once. */
  lemma {:induction false} NoDuplicatesCount<T>(s: seq<T>)
    ensures NoDuplicates(s) <==> forall x :: multiset(s)[x] <= 1
  {
    if s != [] {
      var p, l := s[..|s| - 1], s[|s| - 1];
      assert s == p + [l];
      NoDuplicatesCount(p);
      assert multiset(s) == multiset(p) + multiset{l};
      assert NoDuplicates(s) <==> NoDuplicates(p) && l !in p by {
        if NoDuplicates(s) {
          forall i, j | 0 <= i < j < |p|
            ensures p[i] != p[j]
          {
            assert s[i] == p[i] && s[j] == p[j];
          }
        }
        if NoDuplicates(p) && l !in p {
          forall i, j | 0 <= i < j < |s|
            ensures s[i] != s[j]
          {
            assert s[i] == p[i];
            if j < |s| - 1 {
              assert s[j] == p[j];
            }
          }
        }
      }
      if forall x :: multiset(s)[x] <= 1 {
        forall x
          ensures multiset(p)[x] <= 1
        {
          assert multiset(s)[x] >= multiset(p)[x];
        }
        assert multiset(s)[l] == multiset(p)[l] + 1;
      }
      if NoDuplicates(p) && l !in p {
        forall x
          ensures multiset(s)[x] <= 1
        {
          if x != l {
            assert multiset(s)[x] == multiset(p)[x];
          }
        }
      }
    }
  }

  /** A rearrangement of a list without duplicates has none either. */
  lemma NoDuplicatesPermutation<T>(a: seq<T>, b: seq<T>)
    requires multiset(a) == multiset(b) && NoDuplicates(a)
    ensures NoDuplicates(b)
  {
    NoDuplicatesCount(a);
    NoDuplicatesCount(b);
  }

  lemma NoDuplicatesAppend<T>(a: seq<T>, b: seq<T>)
    requires NoDuplicates(a) && NoDuplicates(b)
    requires forall x :: x in a ==> x !in b
    ensures NoDuplicates(a + b)
  {
    forall i, j | 0 <= i < j < |a + b|
      ensures (a + b)[i] != (a + b)[j]
    {
      if i < |a| && |a| <= j {
        assert (a + b)[i] in a && (a + b)[j] in b;
      }
    }
  }

  /** A file found under an entry lies in the entry's own directory when the
      entry is a file, and one level down in the entry's name otherwise. */
  lemma VisibleUnderShape(sub: Path, e: Node, loc: FileLocation)
    requires VisibleUnder(sub, e, loc)
    ensures e.File? ==> loc == FileLocation(sub, e.name)
    ensures e.Dir? ==> |sub| < |loc.dir| && loc.dir[|sub|] == e.name
  {
    if e.Dir? {
      VisibleNotHidden(sub + [e.name], e.entries, loc);
      assert loc.dir[..|sub| + 1] == sub + [e.name];
      assert loc.dir[|sub|] == loc.dir[..|sub| + 1][|sub|];
    }
  }

  /** Two entries of one directory that yield the same file have the same
      name. */
  lemma VisibleUnderSameName(sub: Path, e: Node, f: Node, loc: FileLocation)
    requires VisibleUnder(sub, e, loc) && VisibleUnder(sub, f, loc)
    ensures e.name == f.name
  {
    VisibleUnderShape(sub, e, loc);
    VisibleUnderShape(sub, f, loc);
  }

  /** A successful walk of an entry of a well-formed tree yields each file
      once. */
  lemma {:induction false} CollectedEntryNoDuplicates(sub: Path, e: Node)
    requires WellFormed(e) && CollectedEntry(sub, e).Ok?
    ensures NoDuplicates(CollectedEntry(sub, e).value)
    decreases e
  {
    if !Hidden(e.name) && e.Dir? {
      assert CollectedEntry(sub, e) == CollectedEntries(sub + [e.name], e.entries);
      CollectedEntriesNoDuplicates(sub + [e.name], e.entries);
    }
  }

  /** A successful walk of the entries of a well-formed directory yields
      each file once: entries with different names yield different files. */
  lemma {:induction false} CollectedEntriesNoDuplicates(sub: Path, entries: seq<Node>)
    requires DistinctNames(entries) && forall i :: 0 <= i < |entries| ==> WellFormed(entries[i])
    requires CollectedEntries(sub, entries).Ok?
    ensures NoDuplicates(CollectedEntries(sub, entries).value)
    decreases entries
  {
    if entries != [] {
      var e, rest := entries[0], entries[1..];
      assert CollectedEntries(sub, entries) == Then(CollectedEntry(sub, e), CollectedEntries(sub, rest));
      CollectedEntryNoDuplicates(sub, e);
      assert DistinctNames(rest) by {
        forall i, j | 0 <= i < j < |rest|
          ensures rest[i].name != rest[j].name
        {
          assert rest[i] == entries[i + 1] && rest[j] == entries[j + 1];
        }
      }
      CollectedEntriesNoDuplicates(sub, rest);
      var a, b := CollectedEntry(sub, e).value, CollectedEntries(sub, rest).value;
      forall x | x in a
        ensures x !in b
      {
        CollectedEntryExact(sub, e, x);
        if x in b {
          CollectedEntriesExact(sub, rest, x);
          var i :| 0 <= i < |rest| && VisibleUnder(sub, rest[i], x);
          VisibleUnderSameName(sub, e, rest[i], x);
          assert false;
        }
      }
      NoDuplicatesAppend(a, b);
    }
  }

  /** A successful walk of a well-formed tree yields each file once. */
  lemma CollectedDirNoDuplicates(sub: Path, dir: Node)
    requires WellFormed(dir) && CollectedDir(sub, dir).Ok?
    ensures NoDuplicates(CollectedDir(sub, dir).value)
  {
    CollectedEntriesNoDuplicates(sub, dir.entries);
  }

  // ---------------------------------------------------------------------
  // When the walk fails
  // ---------------------------------------------------------------------

  /** Some entry of `entries` leads, only through entries that are not
      hidden, to a directory that cannot be opened or read. */
  ghost predicate Blocked(entries: seq<Node>)
    decreases entries
  {
    exists i :: 0 <= i < |entries| && BlockedUnder(entries[i])
  }

  ghost predicate BlockedUnder(e: Node)
    decreases e
  {
    !Hidden(e.name) &&
    match e
    case File(_) => false
    case Dir(_, es) => Blocked(es)
    case Unreadable(_) => true
  }

  /** One entry fails to walk exactly when it is, or holds below visible
      directories, an unreadable directory that is not hidden. */
  lemma {:induction false} CollectedEntryFails(sub: Path, e: Node)
    ensures CollectedEntry(sub, e).Err? <==> BlockedUnder(e)
    decreases e
  {
    if !Hidden(e.name) && e.Dir? {
      assert CollectedEntry(sub, e) == CollectedEntries(sub + [e.name], e.entries);
      CollectedEntriesFails(sub + [e.name], e.entries);
    }
  }

  /** The walk of a directory's entries fails exactly when one of them is
      blocked; hidden unreadable directories are never opened. */
  lemma {:induction false} CollectedEntriesFails(sub: Path, entries: seq<Node>)
    ensures CollectedEntries(sub, entries).Err? <==> Blocked(entries)
    decreases entries
  {
    if entries != [] {
      var e, rest := entries[0], entries[1..];
      assert CollectedEntries(sub, entries) == Then(CollectedEntry(sub, e), CollectedEntries(sub, rest));
      CollectedEntryFails(sub, e);
      CollectedEntriesFails(sub, rest);
      assert Blocked(entries) <==> BlockedUnder(e) || Blocked(rest) by {
        if Blocked(rest) {
          var i :| 0 <= i < |rest| && BlockedUnder(rest[i]);
          assert entries[i + 1] == rest[i];
        }
        if Blocked(entries) {
          var i :| 0 <= i < |entries| && BlockedUnder(entries[i]);
          if i > 0 {
            assert rest[i - 1] == entries[i];
          }
        }
        if BlockedUnder(e) {
          assert entries[0] == e;
        }
      }
    }
  }

  /** The walk from a start node fails exactly when the start itself cannot
      be read or one of its entries is blocked. */
  lemma CollectedDirFails(sub: Path, dir: Node)
    ensures CollectedDir(sub, dir).Err? <==> !dir.Dir? || Blocked(dir.entries)
  {
    if dir.Dir? {
      CollectedEntriesFails(sub, dir.entries);
    }
  }

  /** A dot file and a dot directory yield nothing, whatever the directory
      holds. */
  lemma HiddenEntriesSkipped()
    ensures CollectedEntries([], [File(".hidden"), Dir(".git", [File("x")])]) == Ok([])
  {
    var git := Dir(".git", [File("x")]);
    var tail := [File(".hidden"), git];
    assert tail[1..] == [git] && [git][1..] == [];
    assert Hidden(".hidden") && Hidden(".git");
    assert CollectedEntries([], [git]) == Ok([]);
  }

  /** An empty root yields nothing; a root with a file, a subdirectory
      holding a file of the same name, a dot file and a dot directory yields
      the two visible files, each with its own directory. */
  lemma CollectedDirExamples()
    ensures CollectedDir([], Dir(".", [])) == Ok([])
    ensures CollectedDir([], Dir(".", [File("f"), Dir("dir-1", [File("f")]), File(".hidden"), Dir(".git", [File("x")])]))
         == Ok([FileLocation([], "f"), FileLocation(["dir-1"], "f")])
  {
    var tail := [File(".hidden"), Dir(".git", [File("x")])];
    HiddenEntriesSkipped();
    var sub := Dir("dir-1", [File("f")]);
    assert [File("f")][1..] == [];
    assert !Hidden("f") && !Hidden("dir-1");
    var found := [FileLocation(["dir-1"], "f")];
    assert found + [] == found && [] + found == found;
    var root: Path := [];
    assert root + ["dir-1"] == ["dir-1"];
    assert CollectedEntries(["dir-1"], [File("f")]) == Ok(found);
    assert CollectedEntry([], sub) == Ok(found);
    var entries := [File("f"), sub] + tail;
    assert entries[1..] == [sub] + tail && ([sub] + tail)[1..] == tail;
    assert CollectedEntries([], [sub] + tail) == Ok(found);
    assert entries[0] == File("f") && CollectedEntry([], File("f")) == Ok([FileLocation([], "f")]);
    assert [FileLocation([], "f")] + found == [FileLocation([], "f"), FileLocation(["dir-1"], "f")];
    assert entries == [File("f"), Dir("dir-1", [File("f")]), File(".hidden"), Dir(".git", [File("x")])];
  }

  // ---------------------------------------------------------------------
  // The walk as the source runs it
  // ---------------------------------------------------------------------

  /** `collectDirEntries`: one pass over a chunk of directory entries,
      skipping hidden ones, recursing into directories. */
  method CollectDirEntries(sub: Path, dirEntries: seq<Node>, ghost parent: Node) returns (result: Result<seq<FileLocation>>)
    requires parent.Dir? && forall e :: e in dirEntries ==> e in parent.entries
    ensures result == CollectedEntries(sub, dirEntries)
    decreases parent, 0
  {
    var acc: seq<FileLocation> := [];
    var i := 0;
    while i < |dirEntries|
      invariant 0 <= i <= |dirEntries|
      invariant CollectedEntries(sub, dirEntries[..i]) == Ok(acc)
    {
      var e := dirEntries[i];
      assert dirEntries[..i + 1] == dirEntries[..i] + [e];
      CollectedEntriesAppend(sub, dirEntries[..i], [e]);
      assert [e][1..] == [];
      assert CollectedEntries(sub, [e]) == Then(CollectedEntry(sub, e), Ok([]));
      ghost var here := CollectedEntry(sub, e);
      assert here.Ok? ==> here.value + [] == here.value;
      assert e in parent.entries;
      if Hidden(e.name) {
        // skip dot files and dot directories
        assert acc + [] == acc;
      } else if !e.File? {
        var children := CollectDir(sub + [e.name], e);
        if children.Err? {
          assert dirEntries == dirEntries[..i + 1] + dirEntries[i + 1..];
          CollectedEntriesAppend(sub, dirEntries[..i + 1], dirEntries[i + 1..]);
          return children;
        }
        acc := acc + children.value;
      } else {
        acc := acc + [FileLocation(sub, e.name)];
      }
      i := i + 1;
    }
    assert dirEntries[..i] == dirEntries;
    result := Ok(acc);
  }

  /** `collectDir`: opens the directory and reads its entries chunk by chunk
      until none are left, collecting each chunk in turn. */
  method CollectDir(sub: Path, dir: Node) returns (result: Result<seq<FileLocation>>)
    ensures result == CollectedDir(sub, dir)
    decreases dir, 1
  {
    if !dir.Dir? {
      return Err(sub);
    }
    var entries := dir.entries;
    var acc: seq<FileLocation> := [];
    var k := 0;
    while k < |entries|
      invariant 0 <= k <= |entries|
      invariant CollectedEntries(sub, entries[..k]) == Ok(acc)
    {
      var chunk := entries[k .. k + Min(StatChunkSize, |entries| - k)];
      var next := k + |chunk|;
      PrefixJoin(entries, k, next);
      CollectedEntriesAppend(sub, entries[..k], chunk);
      var files := CollectDirEntries(sub, chunk, dir);
      if files.Err? {
        PrefixJoin(entries, next, |entries|);
        assert entries[..|entries|] == entries && entries[next..|entries|] == entries[next..];
        CollectedEntriesAppend(sub, entries[..next], entries[next..]);
        return files;
      }
      acc := acc + files.value;
      k := next;
    }
    assert entries[..k] == entries;
    result := Ok(acc);
  }
}
