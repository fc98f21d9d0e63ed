/** Small helpers of the slicer: `min`, the rune prefix `getPrefix`, and the
    collision-avoiding `makeUnique`, together with the naming discipline both
    naming passes follow ("make the candidate unique, then record it"). */
module Utils {
  import opened Sets

  /** `min`: the smaller of two integers. */
  function Min(x: int, y: int): (r: int)
    ensures r <= x && r <= y
    ensures r == x || r == y
  {
    if x > y then y else x
  }

  /** `getPrefix`: the first `length` runes of `s`, or all of `s` when it is
      shorter.  Runes are modelled as `char`. */
  function GetPrefix(s: string, length: nat): (r: string)
    ensures r <= s
    ensures |r| == Min(length, |s|)
  {
    s[..Min(length, |s|)]
  }

  lemma GetPrefixEdges(s: string, length: nat)
    ensures GetPrefix(s, 0) == ""
    ensures length >= |s| ==> GetPrefix(s, length) == s
  {
  }

  // ---------------------------------------------------------------------
  // Decimal rendering of the counter, as `%d` prints a positive integer.
  // ---------------------------------------------------------------------

  function DigitChar(d: nat): (c: char)
    requires d < 10
    ensures '0' <= c <= '9'
  {
    (48 + d) as char
  }

  /** A prefix of a list followed by the next part is the longer prefix. */
  lemma PrefixJoin<T>(s: seq<T>, lo: nat, hi: nat)
    requires lo <= hi <= |s|
    ensures s[..lo] + s[lo..hi] == s[..hi]
  {
  }

  /** The decimal digits of `n`, most significant first, without leading
      zeros. */
  function DecimalString(n: nat): (r: string)
    ensures 1 <= |r|
    ensures n >= 10 ==> 2 <= |r|
    ensures forall i :: 0 <= i < |r| ==> '0' <= r[i] <= '9'
  {
    if n < 10 then [DigitChar(n)] else DecimalString(n / 10) + [DigitChar(n % 10)]
  }

  /** The number a string of decimal digits denotes, most significant
      digit first. */
  function DigitsValue(s: string): nat
  {
    if s == [] then 0
    else 10 * DigitsValue(s[..|s| - 1]) + (if '0' <= s[|s| - 1] <= '9' then s[|s| - 1] as int - 48 else 0)
  }

  /** `DecimalString(n)` is the `%d` rendering of `n`: its digits denote
      `n`, and it has no leading zero except for `n == 0` itself. */
  lemma {:induction false} DecimalStringValue(n: nat)
    ensures DigitsValue(DecimalString(n)) == n
    ensures n > 0 ==> DecimalString(n)[0] != '0'
  {
    var s := DecimalString(n);
    if n >= 10 {
      DecimalStringValue(n / 10);
      assert s[..|s| - 1] == DecimalString(n / 10);
      assert s[|s| - 1] == DigitChar(n % 10);
      assert s[0] == DecimalString(n / 10)[0];
    }
  }

  /** Distinct counters print differently, which is what makes the `(k)`
      candidates of one name pairwise distinct. */
  lemma {:induction false} DecimalStringInjective(a: nat, b: nat)
    requires DecimalString(a) == DecimalString(b)
    ensures a == b
  {
    if a < 10 && b < 10 {
      assert DigitChar(a) == DecimalString(a)[0] == DigitChar(b);
    } else if a >= 10 && b >= 10 {
      var s := DecimalString(a);
      assert DecimalString(a / 10) == s[..|s| - 1] == DecimalString(b / 10);
      assert DigitChar(a % 10) == s[|s| - 1] == DigitChar(b % 10);
      DecimalStringInjective(a / 10, b / 10);
    }
  }

  // ---------------------------------------------------------------------
  // makeUnique
  // ---------------------------------------------------------------------

  /** The `count`-th name `makeUnique` tries for `name`: the name itself for
      count 0, and `name(count)` afterwards. */
  function Candidate(name: string, count: nat): (r: string)
    ensures count == 0 ==> r == name
    ensures count > 0 ==> |r| > |name| + 2 && r[..|name|] == name
  {
    if count == 0 then name else name + "(" + DecimalString(count) + ")"
  }

  lemma CandidateInjective(name: string, i: nat, j: nat)
    requires Candidate(name, i) == Candidate(name, j)
    ensures i == j
  {
    if i > 0 && j > 0 {
      var c := Candidate(name, i);
      var di, dj := DecimalString(i), DecimalString(j);
      assert c == name + "(" + di + ")" == name + "(" + dj + ")";
      assert |di| == |dj|;
      assert di == c[|name| + 1 .. |c| - 1] == dj;
      DecimalStringInjective(i, j);
    }
  }

  /** The first `n` candidates for `name`, as a set. */
  ghost function Candidates(name: string, n: nat): set<string>
  {
    if n == 0 then {} else Candidates(name, n - 1) + {Candidate(name, n - 1)}
  }

  lemma {:induction false} CandidatesCard(name: string, n: nat)
    ensures |Candidates(name, n)| == n
    ensures forall m :: n <= m ==> Candidate(name, m) !in Candidates(name, n)
  {
    if n > 0 {
      CandidatesCard(name, n - 1);
      forall m | n <= m
        ensures Candidate(name, m) !in Candidates(name, n)
      {
        if Candidate(name, m) == Candidate(name, n - 1) {
          CandidateInjective(name, m, n - 1);
        }
      }
    }
  }

  lemma {:induction false} CandidatesWithin(name: string, taken: set<string>, n: nat)
    requires forall j :: 0 <= j < n ==> Candidate(name, j) in taken
    ensures Candidates(name, n) <= taken
  {
    if n > 0 {
      CandidatesWithin(name, taken, n - 1);
    }
  }

  lemma {:induction false} SubsetCard(a: set<string>, b: set<string>)
    requires a <= b
    ensures |a| <= |b|
  {
    if a != {} {
      var x :| x in a;
      SubsetCard(a - {x}, b - {x});
    }
  }

  /** Pigeonhole: if the first `n` candidates are all taken, `taken` holds
      at least `n` names. */
  lemma CandidatesBound(name: string, taken: set<string>, n: nat)
    requires forall j :: 0 <= j < n ==> Candidate(name, j) in taken
    ensures n <= |taken|
  {
    CandidatesWithin(name, taken, n);
    CandidatesCard(name, n);
    SubsetCard(Candidates(name, n), taken);
  }

  /** The smallest counter, from `k` on, whose candidate is not taken.  It
      exists because `taken` is finite, and it never exceeds `|taken|`. */
  function FirstFreeFrom(name: string, taken: set<string>, k: nat): (r: nat)
    requires forall j :: 0 <= j < k ==> Candidate(name, j) in taken
    ensures k <= r <= |taken|
    ensures Candidate(name, r) !in taken
    ensures forall j :: 0 <= j < r ==> Candidate(name, j) in taken
    decreases |taken| - k
  {
    CandidatesBound(name, taken, k);
    if Candidate(name, k) !in taken then k
    else
      CandidatesBound(name, taken, k + 1);
      FirstFreeFrom(name, taken, k + 1)
  }

  /** What `makeUnique(name, taken)` returns: the first of `name`, `name(1)`,
      `name(2)`, ... that is not in `taken`. */
  function Uniquify(name: string, taken: set<string>): (r: string)
    ensures r !in taken
    ensures name !in taken ==> r == name
  {
    Candidate(name, FirstFreeFrom(name, taken, 0))
  }

  /** The name picked is the `k`-th candidate for some `k` no larger than
      the number of names taken, and every candidate before it is taken. */
  lemma UniquifyIsCandidate(name: string, taken: set<string>)
    ensures exists k :: 0 <= k <= |taken| && Uniquify(name, taken) == Candidate(name, k) &&
                        forall j :: 0 <= j < k ==> Candidate(name, j) in taken
  {
    var k := FirstFreeFrom(name, taken, 0);
  }

  /** The result is determined by minimality: any free candidate all of whose
      predecessors are taken is the one `Uniquify` picks. */
  lemma UniquifyIsFirstFree(name: string, taken: set<string>, k: nat)
    requires Candidate(name, k) !in taken
    requires forall j :: 0 <= j < k ==> Candidate(name, j) in taken
    ensures Uniquify(name, taken) == Candidate(name, k)
  {
    var r := FirstFreeFrom(name, taken, 0);
  }

  lemma UniquifyExamples()
    ensures Uniquify("a", {}) == "a"
    ensures Uniquify("a", {"a"}) == "a(1)"
    ensures Uniquify("a", {"a", "a(1)", "a(2)"}) == "a(3)"
  {
    assert DecimalString(1) == "1" && DecimalString(2) == "2" && DecimalString(3) == "3";
    assert Candidate("a", 1) == "a(1)";
    UniquifyIsFirstFree("a", {"a"}, 1);
    assert Candidate("a", 2) == "a(2)" && Candidate("a", 3) == "a(3)";
    UniquifyIsFirstFree("a", {"a", "a(1)", "a(2)"}, 3);
  }

  /** `makeUnique`: tries `name`, `name(1)`, `name(2)`, ... against the set
      and returns the first one the set does not contain.  It only reads the
      set (no `modifies`). */
  method MakeUnique(name: string, otherNames: Set<string>) returns (newName: string)
    ensures newName == Uniquify(name, otherNames.elems)
    ensures newName !in otherNames.elems
    ensures name !in otherNames.elems ==> newName == name
  {
    newName := name;
    var count := 1;
    var taken := otherNames.Contains(newName);
    while taken
      invariant 1 <= count
      invariant newName == Candidate(name, count - 1)
      invariant taken <==> newName in otherNames.elems
      invariant forall j :: 0 <= j < count - 1 ==> Candidate(name, j) in otherNames.elems
      decreases |otherNames.elems| - count + 1
    {
      CandidatesBound(name, otherNames.elems, count);
      newName := name + "(" + DecimalString(count) + ")";
      count := count + 1;
      taken := otherNames.Contains(newName);
    }
    UniquifyIsFirstFree(name, otherNames.elems, count - 1);
  }

  // ---------------------------------------------------------------------
  // One naming scope: every candidate is made unique against the names
  // handed out before it, and the result is recorded.
  // ---------------------------------------------------------------------

  function Elems(s: seq<string>): set<string>
  {
    set x | x in s
  }

  /** The names a naming pass hands out for `cands`, in order. */
  function AssignUnique(cands: seq<string>): (r: seq<string>)
    ensures |r| == |cands|
  {
    if cands == [] then []
    else
      var prev := AssignUnique(cands[..|cands| - 1]);
      prev + [Uniquify(cands[|cands| - 1], Elems(prev))]
  }

  /** The names handed out for a prefix of the candidates are a prefix of the
      names handed out for all of them. */
  lemma {:induction false} AssignUniquePrefix(cands: seq<string>, i: nat)
    requires i <= |cands|
    ensures AssignUnique(cands)[..i] == AssignUnique(cands[..i])
    decreases |cands|
  {
    if i == |cands| {
      assert cands[..i] == cands;
    } else {
      var init := cands[..|cands| - 1];
      var prev := AssignUnique(init);
      var u := Uniquify(cands[|cands| - 1], Elems(prev));
      assert AssignUnique(cands) == prev + [u];
      assert (prev + [u])[..i] == prev[..i];
      AssignUniquePrefix(init, i);
      assert init[..i] == cands[..i];
    }
  }

  /** Name `i` is candidate `i` made unique against the names handed out
      before it. */
  lemma AssignUniqueAt(cands: seq<string>, i: nat)
    requires i < |cands|
    ensures AssignUnique(cands)[i] == Uniquify(cands[i], Elems(AssignUnique(cands)[..i]))
  {
    var full := AssignUnique(cands);
    var before := AssignUnique(cands[..i]);
    AssignUniquePrefix(cands, i + 1);
    AssignUniquePrefix(cands, i);
    AssignUniqueStep(cands, i);
    assert full[..i + 1] == before + [Uniquify(cands[i], Elems(before))];
    assert full[i] == full[..i + 1][i];
  }

  /** One step of the naming loop: handing out a name for one more
      candidate appends exactly that name. */
  lemma AssignUniqueStep(cands: seq<string>, i: nat)
    requires i < |cands|
    ensures AssignUnique(cands[..i + 1])
         == AssignUnique(cands[..i]) + [Uniquify(cands[i], Elems(AssignUnique(cands[..i])))]
  {
    var c := cands[..i + 1];
    assert c[..|c| - 1] == cands[..i];
  }

  /** The same step seen as the set of names handed out so far: the new
      name joins it. */
  lemma AssignUniqueStepElems(cands: seq<string>, i: nat)
    requires i < |cands|
    ensures Elems(AssignUnique(cands[..i + 1]))
         == Elems(AssignUnique(cands[..i])) + {Uniquify(cands[i], Elems(AssignUnique(cands[..i])))}
  {
    AssignUniqueStep(cands, i);
    var before := AssignUnique(cands[..i]);
    var u := Uniquify(cands[i], Elems(before));
    assert Elems(before + [u]) == Elems(before) + {u};
  }

  /** All names of one naming scope are pairwise distinct. */
  lemma AssignUniqueDistinct(cands: seq<string>)
    ensures forall i, j :: 0 <= i < j < |cands| ==> AssignUnique(cands)[i] != AssignUnique(cands)[j]
  {
    var r := AssignUnique(cands);
    forall i, j | 0 <= i < j < |cands|
      ensures r[i] != r[j]
    {
      AssignUniqueAt(cands, j);
      assert r[i] in r[..j];
    }
  }

  /** Each name is its candidate, or its candidate with a `(k)` suffix,
      and `k` is at most the number of names handed out before it. */
  lemma AssignUniqueSuffixed(cands: seq<string>, i: nat)
    requires i < |cands|
    ensures exists k :: 0 <= k <= i && AssignUnique(cands)[i] == Candidate(cands[i], k)
  {
    var r := AssignUnique(cands);
    AssignUniqueAt(cands, i);
    var taken := Elems(r[..i]);
    var k := FirstFreeFrom(cands[i], taken, 0);
    assert r[i] == Candidate(cands[i], k);
    ElemsCard(r[..i]);
  }

  lemma {:induction false} ElemsCard(s: seq<string>)
    ensures |Elems(s)| <= |s|
  {
    if s != [] {
      var init := s[..|s| - 1];
      ElemsCard(init);
      assert Elems(s) == Elems(init) + {s[|s| - 1]};
    }
  }

  /** A candidate keeps its own name exactly when no earlier name of the
      scope is equal to it. */
  lemma AssignUniqueKeeps(cands: seq<string>, i: nat)
    requires i < |cands|
    ensures AssignUnique(cands)[i] == cands[i] <==> cands[i] !in AssignUnique(cands)[..i]
  {
    AssignUniqueAt(cands, i);
  }

  /** Candidates that never collide are all handed out unchanged. */
  lemma {:induction false} AssignUniqueNoCollision(cands: seq<string>)
    requires forall i, j :: 0 <= i < j < |cands| ==> cands[i] != cands[j]
    ensures AssignUnique(cands) == cands
  {
    if cands != [] {
      var n := |cands| - 1;
      var init := cands[..n];
      AssignUniqueNoCollision(init);
      assert cands[n] !in Elems(init);
      assert cands == init + [cands[n]];
    }
  }

  /** Keeping the name is not guaranteed for the first holder of a name: a
      name that an earlier collision produced as a suffixed name is taken. */
  lemma FirstHolderCanBeRenamed()
    ensures AssignUnique(["a", "a", "a(1)"]) == ["a", "a(1)", "a(1)(1)"]
  {
    var c := ["a", "a", "a(1)"];
    assert c[..0] == [];
    assert Elems([]) == {};
    AssignUniqueStep(c, 0);
    var r1 := AssignUnique(c[..1]);
    assert r1 == ["a"];
    assert Elems(r1) == {"a"};
    assert DecimalString(1) == "1";
    assert Candidate("a", 1) == "a(1)";
    UniquifyIsFirstFree("a", {"a"}, 1);
    AssignUniqueStep(c, 1);
    var r2 := AssignUnique(c[..2]);
    assert r2 == ["a", "a(1)"];
    assert Elems(r2) == {"a", "a(1)"};
    assert Candidate("a(1)", 1) == "a(1)(1)";
    UniquifyIsFirstFree("a(1)", {"a", "a(1)"}, 1);
    AssignUniqueStep(c, 2);
    assert c[..3] == c;
  }
}
