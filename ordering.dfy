/**
 * The ordering step of `main`: `supported_files.sort()`, which compares the
 * collected path strings with Python's `<` on `str`. Paths are compared
 * through their '/'-joined text; because every collected path starts with
 * the same root directory, comparing the text below the root orders them
 * the same way (`AbsoluteOrderAgrees`).
 */
module Ordering {
  import opened FileTree
  import opened Seqs

  /** Python's `<` on `str`: the first differing code point decides; a proper prefix comes first. */
  predicate StrLess(a: string, b: string)
    decreases |a|
  {
    if a == [] then b != []
    else if b == [] then false
    else if a[0] != b[0] then a[0] < b[0]
    else StrLess(a[1..], b[1..])
  }

  /** The components of `path` joined with '/', as `os.path.join` builds them. */
  function JoinPath(path: Path): string
    decreases |path|
  {
    if path == [] then []
    else if |path| == 1 then path[0]
    else path[0] + "/" + JoinPath(path[1..])
  }

  /** `os.path.join(base, rest)` for a relative `rest`: a separator is added unless `base` is empty or ends in one. */
  function OsJoin(base: string, rest: string): string {
    if base == [] || base[|base| - 1] == '/' then base + rest else base + "/" + rest
  }

  /** The absolute path string `os.walk` produces for `path` below `rootDir`. */
  function AbsPath(rootDir: string, path: Path): string {
    OsJoin(rootDir, JoinPath(path))
  }

  /** `a < b` on the joined path texts: the only comparison `list.sort()` makes. */
  predicate PathLess(a: Path, b: Path) {
    StrLess(JoinPath(a), JoinPath(b))
  }

  /** `a` may stay before `b` in sorted order: `b` is not less than `a`. */
  predicate PathLeq(a: Path, b: Path) {
    !PathLess(b, a)
  }

  /** Ascending order, as `list.sort()` leaves it. */
  predicate Sorted(s: seq<Path>) {
    forall i, j :: 0 <= i < j < |s| ==> PathLeq(s[i], s[j])
  }

  predicate StrictlySorted(s: seq<Path>) {
    forall i, j :: 0 <= i < j < |s| ==> PathLess(s[i], s[j])
  }

  /** Each element is no greater than the next one. */
  predicate AdjacentSorted(s: seq<Path>) {
    forall i, j :: 0 <= i < |s| && j == i + 1 < |s| ==> PathLeq(s[i], s[j])
  }

  // ----- Python's string order -----

  /** `a` and `b` agree on their first `k` code points and `a` has the smaller one at position `k`. */
  predicate FirstDifferenceLess(a: string, b: string, k: nat) {
    k < |a| && k < |b| && a[..k] == b[..k] && a[k] < b[k]
  }

  /**
   * The order by its textbook definition: `a < b` exactly when `a` is a
   * proper prefix of `b`, or at the first position where they differ `a`
   * holds the smaller code point.
   */
  lemma {:induction false} StrLessIff(a: string, b: string)
    ensures StrLess(a, b) <==>
      (|a| < |b| && a == b[..|a|]) || (exists k: nat :: FirstDifferenceLess(a, b, k))
    decreases |a|
  {
    if a != [] && b != [] {
      if a[0] == b[0] {
        StrLessIff(a[1..], b[1..]);
        StrLessIffStep(a, b);
      } else {
        assert a[..0] == b[..0];
        if a[0] < b[0] {
          assert FirstDifferenceLess(a, b, 0);
        }
        forall k: nat | FirstDifferenceLess(a, b, k)
          ensures a[0] < b[0]
        {
        }
      }
    }
  }

  /** Dropping an equal first code point shifts the first difference by one and keeps prefixes. */
  lemma StrLessIffStep(a: string, b: string)
    requires a != [] && b != [] && a[0] == b[0]
    ensures (|a| < |b| && a == b[..|a|]) <==> (|a[1..]| < |b[1..]| && a[1..] == b[1..][..|a[1..]|])
    ensures (exists k: nat :: FirstDifferenceLess(a, b, k)) <==> (exists k: nat :: FirstDifferenceLess(a[1..], b[1..], k))
  {
    if |a| < |b| && a == b[..|a|] {
      assert a[1..] == b[1..][..|a| - 1];
    }
    if |a[1..]| < |b[1..]| && a[1..] == b[1..][..|a[1..]|] {
      assert a == [a[0]] + a[1..];
      assert b[..|a|] == [b[0]] + b[1..][..|a[1..]|];
    }
    forall k: nat | FirstDifferenceLess(a[1..], b[1..], k)
      ensures FirstDifferenceLess(a, b, k + 1)
    {
      assert a[..k + 1] == [a[0]] + a[1..][..k];
      assert b[..k + 1] == [b[0]] + b[1..][..k];
    }
    forall k: nat | FirstDifferenceLess(a, b, k)
      ensures k > 0 && FirstDifferenceLess(a[1..], b[1..], k - 1)
    {
      assert k > 0;
      assert a[1..][..k - 1] == a[1..k] == b[1..k] == b[1..][..k - 1];
    }
  }

  lemma {:induction false} StrLessIrreflexive(a: string)
    ensures !StrLess(a, a)
    decreases |a|
  {
    if a != [] {
      StrLessIrreflexive(a[1..]);
    }
  }

  lemma {:induction false} StrLessAsymmetric(a: string, b: string)
    ensures StrLess(a, b) ==> !StrLess(b, a)
    decreases |a|
  {
    if a != [] && b != [] && a[0] == b[0] {
      StrLessAsymmetric(a[1..], b[1..]);
    }
  }

  lemma {:induction false} StrLessTransitive(a: string, b: string, c: string)
    requires StrLess(a, b) && StrLess(b, c)
    ensures StrLess(a, c)
    decreases |a|
  {
    if a != [] && a[0] == b[0] && b[0] == c[0] {
      StrLessTransitive(a[1..], b[1..], c[1..]);
    }
  }

  /** Any two different strings are ordered one way or the other. */
  lemma {:induction false} StrLessTotal(a: string, b: string)
    ensures a == b || StrLess(a, b) || StrLess(b, a)
    decreases |a|
  {
    if a != [] && b != [] && a[0] == b[0] {
      StrLessTotal(a[1..], b[1..]);
      if a[1..] == b[1..] {
        assert a == [a[0]] + a[1..] && b == [b[0]] + b[1..];
      }
    }
  }

  /** A common prefix does not change the order. */
  lemma {:induction false} StrLessCommonPrefix(c: string, a: string, b: string)
    ensures StrLess(c + a, c + b) <==> StrLess(a, b)
    decreases |c|
  {
    if c != [] {
      assert (c + a)[1..] == c[1..] + a;
      assert (c + b)[1..] == c[1..] + b;
      StrLessCommonPrefix(c[1..], a, b);
    } else {
      assert c + a == a && c + b == b;
    }
  }

  /**
   * Sorting the absolute path strings, as the script does, orders the files
   * exactly as sorting their paths below the root.
   */
  lemma AbsoluteOrderAgrees(rootDir: string, p: Path, q: Path)
    ensures StrLess(AbsPath(rootDir, p), AbsPath(rootDir, q)) <==> PathLess(p, q)
  {
    var prefix := if rootDir == [] || rootDir[|rootDir| - 1] == '/' then rootDir else rootDir + "/";
    assert AbsPath(rootDir, p) == prefix + JoinPath(p);
    assert AbsPath(rootDir, q) == prefix + JoinPath(q);
    StrLessCommonPrefix(prefix, JoinPath(p), JoinPath(q));
  }

  // ----- paths -----

  /** A joined path never starts with a separator when its first component is a valid name. */
  lemma JoinPathHead(p: Path)
    requires p != [] && ValidName(p[0])
    ensures |JoinPath(p)| >= |p[0]| && JoinPath(p)[..|p[0]|] == p[0]
    ensures |p| > 1 ==> |JoinPath(p)| > |p[0]| && JoinPath(p)[|p[0]|] == '/'
  {
  }

  /** Joining valid names loses nothing: different paths have different text, so sorting never meets a tie. */
  lemma {:induction false} JoinPathInjective(p: Path, q: Path)
    requires p != [] && q != []
    requires forall i :: 0 <= i < |p| ==> ValidName(p[i])
    requires forall i :: 0 <= i < |q| ==> ValidName(q[i])
    requires JoinPath(p) == JoinPath(q)
    ensures p == q
    decreases |p|
  {
    var s := JoinPath(p);
    JoinPathHead(p);
    JoinPathHead(q);
    var a, b := p[0], q[0];
    assert |a| == |b|;
    assert a == s[..|a|] == b;
    if |p| > 1 && |q| > 1 {
      assert JoinPath(p) == a + "/" + JoinPath(p[1..]);
      assert JoinPath(q) == a + "/" + JoinPath(q[1..]);
      assert JoinPath(p[1..]) == s[|a| + 1..] == JoinPath(q[1..]);
      JoinPathInjective(p[1..], q[1..]);
      assert p == [a] + p[1..] && q == [a] + q[1..];
    }
  }

  // ----- sorted sequences -----

  lemma PathLeqTotal(a: Path, b: Path)
    ensures PathLeq(a, b) || PathLeq(b, a)
  {
    StrLessAsymmetric(JoinPath(a), JoinPath(b));
  }

  lemma PathLeqTransitive(a: Path, b: Path, c: Path)
    requires PathLeq(a, b) && PathLeq(b, c)
    ensures PathLeq(a, c)
  {
    var x, y, z := JoinPath(a), JoinPath(b), JoinPath(c);
    if StrLess(z, x) {
      StrLessTotal(x, y);
      if StrLess(x, y) {
        StrLessTransitive(z, x, y);
      }
    }
  }

  /** Each element no greater than the next makes the whole sequence ascending. */
  lemma {:induction false} AdjacentSortedIsSorted(s: seq<Path>)
    requires AdjacentSorted(s)
    ensures Sorted(s)
    decreases |s|
  {
    if |s| > 1 {
      var init := s[..|s| - 1];
      assert AdjacentSorted(init);
      AdjacentSortedIsSorted(init);
      forall i | 0 <= i < |s| - 1
        ensures PathLeq(s[i], s[|s| - 1])
      {
        if i < |s| - 2 {
          assert PathLeq(init[i], init[|s| - 2]);
          PathLeqTransitive(s[i], s[|s| - 2], s[|s| - 1]);
        }
      }
      forall i, j | 0 <= i < j < |s|
        ensures PathLeq(s[i], s[j])
      {
        if j < |s| - 1 {
          assert PathLeq(init[i], init[j]);
        }
      }
    }
  }

  /** Without repeated texts, an ascending sequence is strictly ascending. */
  lemma SortedDistinctIsStrict(s: seq<Path>)
    requires Sorted(s)
    requires forall i, j :: 0 <= i < j < |s| ==> JoinPath(s[i]) != JoinPath(s[j])
    ensures StrictlySorted(s)
  {
    forall i, j | 0 <= i < j < |s|
      ensures PathLess(s[i], s[j])
    {
      StrLessTotal(JoinPath(s[i]), JoinPath(s[j]));
    }
  }

  /**
   * There is only one strictly ascending arrangement of a collection: the
   * sort leaves no freedom, so the same files always come out in the same
   * order.
   */
  lemma {:induction false} StrictlySortedUnique(a: seq<Path>, b: seq<Path>)
    requires StrictlySorted(a) && StrictlySorted(b)
    requires multiset(a) == multiset(b)
    ensures a == b
    decreases |a|
  {
    if a == [] {
      assert |b| == |multiset(b)| == 0;
    } else {
      assert b != [] by { assert a[0] in multiset(b); }
      SameLeast(a, b);
      MultisetTail(a);
      MultisetTail(b);
      StrictlySortedTail(a);
      StrictlySortedTail(b);
      StrictlySortedUnique(a[1..], b[1..]);
      HeadTail(a);
      HeadTail(b);
    }
  }

  lemma StrictlySortedTail(a: seq<Path>)
    requires a != [] && StrictlySorted(a)
    ensures StrictlySorted(a[1..])
  {
    forall i, j | 0 <= i < j < |a| - 1
      ensures PathLess(a[1..][i], a[1..][j])
    {
      assert a[1..][i] == a[i + 1] && a[1..][j] == a[j + 1];
    }
  }


  /** Two strictly ascending arrangements of one collection start with the same element, its least. */
  lemma SameLeast(a: seq<Path>, b: seq<Path>)
    requires StrictlySorted(a) && StrictlySorted(b)
    requires multiset(a) == multiset(b) && a != [] && b != []
    ensures a[0] == b[0]
  {
    assert a[0] in multiset(b) && b[0] in multiset(a);
    var k :| 0 <= k < |b| && b[k] == a[0];
    var m :| 0 <= m < |a| && a[m] == b[0];
    if k > 0 {
      assert PathLess(b[0], b[k]);
      if m > 0 {
        assert PathLess(a[0], a[m]);
        StrLessAsymmetric(JoinPath(a[0]), JoinPath(a[m]));
      } else {
        StrLessIrreflexive(JoinPath(a[0]));
      }
    }
  }

  // ----- the sort -----

  /** `supported_files.sort()`: in place, ascending, a permutation of what was there. */
  method SortPaths(a: array<Path>)
    modifies a
    ensures Sorted(a[..])
    ensures multiset(a[..]) == multiset(old(a[..]))
  {
    var i := 0;
    while i < a.Length
      invariant 0 <= i <= a.Length
      invariant AdjacentSorted(a[..i])
      invariant multiset(a[..]) == multiset(old(a[..]))
    {
      InsertInto(a, i);
      i := i + 1;
    }
    assert a[..i] == a[..];
    AdjacentSortedIsSorted(a[..]);
  }

  /** Moves `a[i]` down past every greater path, so that the first `i + 1` paths are ordered; the paths after `i` stay where they are. */
  method InsertInto(a: array<Path>, i: nat)
    requires i < a.Length
    requires AdjacentSorted(a[..i])
    modifies a
    ensures AdjacentSorted(a[..i + 1])
    ensures multiset(a[..]) == multiset(old(a[..]))
    ensures a[i + 1..] == old(a[i + 1..])
  {
    var j := i;
    InsertStart(a[..], i);
    while 0 < j && PathLess(a[j], a[j - 1])
      invariant 0 <= j <= i
      invariant Inserting(a[..], i, j)
      invariant multiset(a[..]) == multiset(old(a[..]))
      invariant a[i + 1..] == old(a[i + 1..])
    {
      ghost var s := a[..];
      SwapStep(s, i, j);
      a[j - 1], a[j] := a[j], a[j - 1];
      assert a[..] == s[j - 1 := s[j]][j := s[j - 1]];
      j := j - 1;
    }
    InsertDone(a[..], i, j);
  }

  /** While `s[j]` moves down: the paths before it are ordered, so are those from it to `i`, and its neighbours are too. */
  predicate Inserting(s: seq<Path>, i: nat, j: nat)
    requires j <= i < |s|
  {
    && AdjacentSorted(s[..j])
    && AdjacentSorted(s[j..i + 1])
    && (0 < j < i ==> PathLeq(s[j - 1], s[j + 1]))
  }

  lemma InsertStart(s: seq<Path>, i: nat)
    requires i < |s| && AdjacentSorted(s[..i])
    ensures Inserting(s, i, i)
  {
  }

  /** Swapping an out-of-order pair moves the element being inserted one place down and keeps both runs ordered. */
  lemma SwapStep(s: seq<Path>, i: nat, j: nat)
    requires 0 < j <= i < |s|
    requires Inserting(s, i, j)
    requires PathLess(s[j], s[j - 1])
    ensures var t := s[j - 1 := s[j]][j := s[j - 1]];
      && Inserting(t, i, j - 1)
      && multiset(t) == multiset(s)
  {
    StrLessAsymmetric(JoinPath(s[j]), JoinPath(s[j - 1]));
    var t := s[j - 1 := s[j]][j := s[j - 1]];
    assert t[..j - 1] == s[..j - 1];
    if 0 < j - 1 {
      assert PathLeq(s[j - 2], s[j - 1]);
    }
  }

  /** Once the inserted element is no less than its left neighbour, the first `i + 1` elements are ordered. */
  lemma InsertDone(s: seq<Path>, i: nat, j: nat)
    requires j <= i < |s|
    requires Inserting(s, i, j)
    requires 0 < j ==> PathLeq(s[j - 1], s[j])
    ensures AdjacentSorted(s[..i + 1])
  {
    var t := s[..i + 1];
    forall p, q | 0 <= p < |t| && q == p + 1 < |t|
      ensures PathLeq(t[p], t[q])
    {
      if q < j {
        assert s[..j][p] == s[p] && s[..j][q] == s[q];
      } else if p > j {
        assert s[j..i + 1][p - j] == s[p] && s[j..i + 1][q - j] == s[q];
      }
    }
  }
}
