/**
 * `main`: collect the supported files below the project root, sort their
 * paths, and write them one after the other into the combined output.
 */
module Combine {
  import opened FileTree
  import opened Traversal
  import opened TraversalFacts
  import opened Ordering
  import opened Output

  /**
   * The whole run. The paths are the walk's paths in sorted order; in a
   * well-formed tree every one of them can be read, so the run completes and
   * the output holds one block per supported file, in that order.
   */
  method CombineFiles(root: Node) returns (ordered: seq<Path>, output: string, ok: bool)
    ensures Sorted(ordered)
    ensures multiset(ordered) == multiset(SupportedFiles(root))
    ensures ok <==> AllReadable(Reader(root), ordered)
    ensures ok ==> output == Render(Entries(Reader(root), ordered))
    ensures WellFormed(RootEntries(root)) ==> ok
  {
    var supported := GetAllSupportedFiles(root);
    var a := new Path[|supported|](i requires 0 <= i < |supported| => supported[i]);
    assert a[..] == supported;
    SortPaths(a);
    ordered := a[..];
    output, ok := ConcatenateFiles(Reader(root), ordered);
    if WellFormed(RootEntries(root)) {
      PermutationReadable(root, ordered);
    }
  }

  /** Whatever order the sort leaves them in, the paths of a well-formed tree can all be read. */
  lemma PermutationReadable(root: Node, ordered: seq<Path>)
    requires WellFormed(RootEntries(root))
    requires multiset(ordered) == multiset(SupportedFiles(root))
    ensures AllReadable(Reader(root), ordered)
  {
    forall i | 0 <= i < |ordered|
      ensures Reader(root)(ordered[i]).Some?
    {
      assert ordered[i] in multiset(ordered);
      SupportedFilesReadable(root, ordered[i]);
    }
  }

  /**
   * The output does not depend on the order in which directories list their
   * entries: in a well-formed tree there is only one sorted arrangement of
   * the supported paths, because no path is reported twice and distinct
   * paths have distinct texts.
   */
  lemma SortedOrderUnique(root: Node, x: seq<Path>, y: seq<Path>)
    requires WellFormed(RootEntries(root))
    requires Sorted(x) && multiset(x) == multiset(SupportedFiles(root))
    requires Sorted(y) && multiset(y) == multiset(SupportedFiles(root))
    ensures x == y
  {
    DistinctTexts(root, x);
    DistinctTexts(root, y);
    SortedDistinctIsStrict(x);
    SortedDistinctIsStrict(y);
    StrictlySortedUnique(x, y);
  }

  /** An arrangement of the supported paths of a well-formed tree holds no two paths with the same text. */
  lemma DistinctTexts(root: Node, x: seq<Path>)
    requires WellFormed(RootEntries(root))
    requires multiset(x) == multiset(SupportedFiles(root))
    ensures forall i, j :: 0 <= i < j < |x| ==> JoinPath(x[i]) != JoinPath(x[j])
  {
    forall i, j | 0 <= i < j < |x|
      ensures JoinPath(x[i]) != JoinPath(x[j])
    {
      ValidComponents(root, x, i);
      ValidComponents(root, x, j);
      if JoinPath(x[i]) == JoinPath(x[j]) {
        JoinPathInjective(x[i], x[j]);
        RepeatedCount(x, i, j);
        SupportedFilesExactlyOnce(root, x[i]);
      }
    }
  }

  /** Every path in an arrangement of the supported paths of a well-formed tree is made of valid names. */
  lemma ValidComponents(root: Node, x: seq<Path>, i: nat)
    requires WellFormed(RootEntries(root))
    requires multiset(x) == multiset(SupportedFiles(root))
    requires i < |x|
    ensures x[i] != []
    ensures forall k :: 0 <= k < |x[i]| ==> ValidName(x[i][k])
  {
    assert x[i] in multiset(x);
    SupportedFilesMembers(root, x[i]);
    var c :| HasFile(RootEntries(root), x[i], c);
    HasFileValidNames(RootEntries(root), x[i], c);
  }

  /** A value at two positions of a sequence occurs at least twice in it. */
  lemma RepeatedCount<T>(s: seq<T>, i: nat, j: nat)
    requires i < j < |s| && s[i] == s[j]
    ensures multiset(s)[s[i]] >= 2
  {
    assert s == s[..j] + [s[j]] + s[j + 1..];
    assert s[i] in s[..j];
  }

  /**
   * The output does not depend on the order in which directories list their
   * entries: two well-formed trees holding the same files with the same texts,
   * in whatever listing order, give the same sorted paths and the same output.
   */
  lemma ListingOrderIrrelevant(r1: Node, r2: Node, x: seq<Path>, y: seq<Path>)
    requires WellFormed(RootEntries(r1)) && WellFormed(RootEntries(r2))
    requires forall p, c :: HasFile(RootEntries(r1), p, c) <==> HasFile(RootEntries(r2), p, c)
    requires Sorted(x) && multiset(x) == multiset(SupportedFiles(r1))
    requires Sorted(y) && multiset(y) == multiset(SupportedFiles(r2))
    ensures x == y
    ensures AllReadable(Reader(r1), x) && AllReadable(Reader(r2), y)
    ensures Render(Entries(Reader(r1), x)) == Render(Entries(Reader(r2), y))
  {
    SameFilesSameSupported(r1, r2);
    SortedOrderUnique(r1, x, y);
    PermutationReadable(r1, x);
    PermutationReadable(r2, y);
    SameFilesSameEntries(r1, r2, x);
  }

  /** Trees holding the same files give the same entries for paths both can read. */
  lemma SameFilesSameEntries(r1: Node, r2: Node, x: seq<Path>)
    requires WellFormed(RootEntries(r1)) && WellFormed(RootEntries(r2))
    requires forall p, c :: HasFile(RootEntries(r1), p, c) <==> HasFile(RootEntries(r2), p, c)
    requires AllReadable(Reader(r1), x) && AllReadable(Reader(r2), x)
    ensures Entries(Reader(r1), x) == Entries(Reader(r2), x)
  {
    forall i | 0 <= i < |x|
      ensures Reader(r1)(x[i]) == Reader(r2)(x[i])
    {
      SameFilesSameText(r1, r2, x[i]);
    }
  }

  /** Trees holding the same files collect the same paths, each as often. */
  lemma SameFilesSameSupported(r1: Node, r2: Node)
    requires WellFormed(RootEntries(r1)) && WellFormed(RootEntries(r2))
    requires forall p, c :: HasFile(RootEntries(r1), p, c) <==> HasFile(RootEntries(r2), p, c)
    ensures multiset(SupportedFiles(r1)) == multiset(SupportedFiles(r2))
  {
    forall p
      ensures multiset(SupportedFiles(r1))[p] == multiset(SupportedFiles(r2))[p]
    {
      SupportedFilesExactlyOnce(r1, p);
      SupportedFilesExactlyOnce(r2, p);
      assert FileAt(RootEntries(r1), p) <==> FileAt(RootEntries(r2), p);
    }
  }

  /** Trees holding the same files give the same text for every path read. */
  lemma SameFilesSameText(r1: Node, r2: Node, p: Path)
    requires WellFormed(RootEntries(r1)) && WellFormed(RootEntries(r2))
    requires forall p, c :: HasFile(RootEntries(r1), p, c) <==> HasFile(RootEntries(r2), p, c)
    ensures Reader(r1)(p) == Reader(r2)(p)
  {
    var l1, l2 := Lookup(RootEntries(r1), p), Lookup(RootEntries(r2), p);
    if l1.Some? {
      LookupFindsFile(RootEntries(r1), p, l1.value);
      LookupFindsFile(RootEntries(r2), p, l1.value);
    } else if l2.Some? {
      LookupFindsFile(RootEntries(r1), p, l2.value);
      LookupFindsFile(RootEntries(r2), p, l2.value);
    }
  }
}
