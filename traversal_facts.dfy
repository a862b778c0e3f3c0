/**
 * What `get_all_supported_files` reports: soundness, completeness, pruning
 * of excluded subtrees, and that no path is reported twice. The lemmas are
 * proved for any `Rules` and then stated for the script's rules.
 */
module TraversalFacts {
  import opened Wrappers
  import opened FileTree
  import opened Filters
  import opened Traversal

  predicate Distinct<T(==)>(s: seq<T>) {
    forall i, j :: 0 <= i < j < |s| ==> s[i] != s[j]
  }

  /** The accepted files of one directory are its file entries with accepted names, one path each. */
  lemma {:induction false} FilesInMembers(rules: Rules, dirpath: Path, entries: seq<Node>, p: Path)
    ensures p in FilesIn(rules, dirpath, entries) <==>
      exists i :: 0 <= i < |entries| && entries[i].File? && rules.accept(entries[i].name) && p == dirpath + [entries[i].name]
    decreases |entries|
  {
    if entries != [] {
      var n := |entries| - 1;
      var init, last := entries[..n], entries[n];
      var here := if last.File? && rules.accept(last.name) then [dirpath + [last.name]] else [];
      assert FilesIn(rules, dirpath, entries) == FilesIn(rules, dirpath, init) + here;
      FilesInMembers(rules, dirpath, init, p);
      if p in FilesIn(rules, dirpath, init) {
        var i :| 0 <= i < |init| && init[i].File? && rules.accept(init[i].name) && p == dirpath + [init[i].name];
        assert entries[i] == init[i];
      } else if p in here {
        assert entries[n].File? && rules.accept(entries[n].name) && p == dirpath + [entries[n].name];
      }
      if exists i :: 0 <= i < |entries| && entries[i].File? && rules.accept(entries[i].name) && p == dirpath + [entries[i].name] {
        var i :| 0 <= i < |entries| && entries[i].File? && rules.accept(entries[i].name) && p == dirpath + [entries[i].name];
        if i < n {
          assert init[i] == entries[i];
        } else {
          assert here == [p];
        }
      }
    }
  }

  /** A path comes from the subdirectory walks exactly when it comes from the walk of one kept subdirectory. */
  lemma {:induction false} WalkSubdirsMembers(rules: Rules, dirpath: Path, entries: seq<Node>, p: Path)
    ensures p in WalkSubdirs(rules, dirpath, entries) <==>
      exists i :: 0 <= i < |entries| && entries[i].Dir? && !rules.prune(entries[i].name) &&
        p in WalkDir(rules, dirpath + [entries[i].name], entries[i].children)
    decreases |entries|
  {
    if entries != [] {
      var e, tail := entries[0], entries[1..];
      var first := if e.Dir? && !rules.prune(e.name) then WalkDir(rules, dirpath + [e.name], e.children) else [];
      assert WalkSubdirs(rules, dirpath, entries) == first + WalkSubdirs(rules, dirpath, tail);
      WalkSubdirsMembers(rules, dirpath, tail, p);
      if p in WalkSubdirs(rules, dirpath, entries) && p !in first {
        var i :| 0 <= i < |tail| && tail[i].Dir? && !rules.prune(tail[i].name) &&
          p in WalkDir(rules, dirpath + [tail[i].name], tail[i].children);
        assert entries[i + 1] == tail[i];
      }
      if exists i :: 0 <= i < |entries| && entries[i].Dir? && !rules.prune(entries[i].name) &&
          p in WalkDir(rules, dirpath + [entries[i].name], entries[i].children) {
        var i :| 0 <= i < |entries| && entries[i].Dir? && !rules.prune(entries[i].name) &&
          p in WalkDir(rules, dirpath + [entries[i].name], entries[i].children);
        if i > 0 {
          assert tail[i - 1] == entries[i];
        }
      }
    }
  }


  /**
   * Soundness and completeness of the walk below `dirpath`: it reports `p`
   * exactly when `p` extends `dirpath` by the path of a file in the tree
   * whose name is accepted and none of whose directories is pruned.
   */
  lemma {:induction false} WalkDirMembers(rules: Rules, dirpath: Path, entries: seq<Node>, p: Path)
    ensures p in WalkDir(rules, dirpath, entries) <==>
      && |p| > |dirpath|
      && p[..|dirpath|] == dirpath
      && Eligible(rules, p[|dirpath|..])
      && FileAt(entries, p[|dirpath|..])
    decreases entries, 2
  {
    var m := |dirpath|;
    if p in WalkDir(rules, dirpath, entries) {
      WalkDirSound(rules, dirpath, entries, p);
    }
    if && |p| > m && p[..m] == dirpath && Eligible(rules, p[m..]) && FileAt(entries, p[m..]) {
      WalkDirComplete(rules, dirpath, entries, p);
    }
  }

  /** Every path the walk reports is an eligible file of the subtree. */
  lemma {:induction false} WalkDirSound(rules: Rules, dirpath: Path, entries: seq<Node>, p: Path)
    requires p in WalkDir(rules, dirpath, entries)
    ensures |p| > |dirpath| && p[..|dirpath|] == dirpath
    ensures Eligible(rules, p[|dirpath|..]) && FileAt(entries, p[|dirpath|..])
    decreases entries, 1
  {
    var m := |dirpath|;
    FilesInMembers(rules, dirpath, entries, p);
    if p in FilesIn(rules, dirpath, entries) {
      var i :| 0 <= i < |entries| && entries[i].File? && rules.accept(entries[i].name) && p == dirpath + [entries[i].name];
      assert p[m..] == [entries[i].name];
      assert HasFile(entries, p[m..], entries[i].content);
    } else {
      WalkSubdirsMembers(rules, dirpath, entries, p);
      var i :| 0 <= i < |entries| && entries[i].Dir? && !rules.prune(entries[i].name) &&
        p in WalkDir(rules, dirpath + [entries[i].name], entries[i].children);
      WalkDirMembersStep(rules, dirpath, entries, i, p);
    }
  }

  /** Every eligible file of the subtree is reported by the walk. */
  lemma {:induction false} WalkDirComplete(rules: Rules, dirpath: Path, entries: seq<Node>, p: Path)
    requires |p| > |dirpath| && p[..|dirpath|] == dirpath
    requires Eligible(rules, p[|dirpath|..]) && FileAt(entries, p[|dirpath|..])
    ensures p in WalkDir(rules, dirpath, entries)
    decreases entries, 1
  {
    var m := |dirpath|;
    var q := p[m..];
    var c :| HasFile(entries, q, c);
    var i :| 0 <= i < |entries| && entries[i].name == q[0] &&
      if |q| == 1 then entries[i].File? && entries[i].content == c
      else entries[i].Dir? && HasFile(entries[i].children, q[1..], c);
    if |q| == 1 {
      assert p == dirpath + [entries[i].name];
      FilesInMembers(rules, dirpath, entries, p);
    } else {
      WalkDirMembersBack(rules, dirpath, entries, i, p, c);
      WalkSubdirsMembers(rules, dirpath, entries, p);
    }
  }


  /** Soundness, one level down: a path from a kept subdirectory's walk is a file of this directory's subtree. */
  lemma {:induction false} WalkDirMembersStep(rules: Rules, dirpath: Path, entries: seq<Node>, i: nat, p: Path)
    requires i < |entries| && entries[i].Dir? && !rules.prune(entries[i].name)
    requires p in WalkDir(rules, dirpath + [entries[i].name], entries[i].children)
    ensures |p| > |dirpath| && p[..|dirpath|] == dirpath
    ensures Eligible(rules, p[|dirpath|..]) && FileAt(entries, p[|dirpath|..])
    decreases entries, 0
  {
    var m := |dirpath|;
    var sub := dirpath + [entries[i].name];
    assert |p| > m + 1 && p[..m + 1] == sub && Eligible(rules, p[m + 1..]) && FileAt(entries[i].children, p[m + 1..]) by {
      WalkDirMembers(rules, sub, entries[i].children, p);
    }
    var q := p[m + 1..];
    var r := p[m..];
    assert p[..m] == dirpath by { assert p[..m] == sub[..m]; }
    assert r == [entries[i].name] + q by { assert r[0] == sub[m]; assert r[1..] == q; }
    var c :| HasFile(entries[i].children, q, c);
    assert HasFile(entries, r, c) by { assert r[1..] == q; }
    forall j | 0 <= j < |r| - 1
      ensures !rules.prune(r[j])
    {
      if j > 0 { assert r[j] == q[j - 1]; }
    }
  }

  /** Completeness, one level down: a deeper eligible file is reported by its subdirectory's walk. */
  lemma {:induction false} WalkDirMembersBack(rules: Rules, dirpath: Path, entries: seq<Node>, i: nat, p: Path, c: string)
    requires |p| > |dirpath| + 1 && p[..|dirpath|] == dirpath
    requires Eligible(rules, p[|dirpath|..])
    requires i < |entries| && entries[i].name == p[|dirpath|]
    requires entries[i].Dir? && HasFile(entries[i].children, p[|dirpath| + 1..], c)
    ensures !rules.prune(entries[i].name)
    ensures p in WalkDir(rules, dirpath + [entries[i].name], entries[i].children)
    decreases entries, 0
  {
    var m := |dirpath|;
    var sub := dirpath + [entries[i].name];
    var q := p[m..];
    assert q[0] == p[m];
    var tail := p[m + 1..];
    assert tail == q[1..];
    assert Eligible(rules, tail) by {
      forall j | 0 <= j < |tail| - 1 ensures !rules.prune(tail[j]) {
        assert tail[j] == q[j + 1];
      }
      assert tail[|tail| - 1] == q[|q| - 1];
    }
    assert p[..m + 1] == sub;
    assert p[|sub|..] == tail;
    WalkDirMembers(rules, sub, entries[i].children, p);
  }

  /** Under any rules, the walk from the root reports exactly the eligible files of the tree. */
  lemma WalkRootMembers(rules: Rules, root: Node, p: Path)
    ensures p in WalkDir(rules, [], RootEntries(root)) <==> Eligible(rules, p) && FileAt(RootEntries(root), p)
  {
    WalkDirMembers(rules, [], RootEntries(root), p);
    assert p[0..] == p;
  }

  /**
   * `get_all_supported_files` reports a path exactly when a file sits there
   * below the root, its name passes `is_file` and no directory on the way is
   * excluded by `should_exclude_dir`.
   */
  lemma SupportedFilesMembers(root: Node, p: Path)
    ensures p in SupportedFiles(root) <==>
      && p != []
      && IsFile(p[|p| - 1])
      && (forall j :: 0 <= j < |p| - 1 ==> !ShouldExcludeDir(p[j]))
      && FileAt(RootEntries(root), p)
  {
    WalkRootMembers(ScriptRules, root, p);
  }

  /** Pruning: no file below an excluded directory is reported, at any depth and whatever its name. */
  lemma PrunedSubtreeNeverReported(root: Node, p: Path, j: nat)
    requires j < |p| - 1 && ShouldExcludeDir(p[j])
    ensures p !in SupportedFiles(root)
  {
    SupportedFilesMembers(root, p);
  }

  /** In a well-formed tree every reported path can be opened and read. */
  lemma SupportedFilesReadable(root: Node, p: Path)
    requires WellFormed(RootEntries(root))
    requires p in SupportedFiles(root)
    ensures Lookup(RootEntries(root), p).Some?
  {
    SupportedFilesMembers(root, p);
    var c :| HasFile(RootEntries(root), p, c);
    LookupFindsFile(RootEntries(root), p, c);
  }

  // ----- no path is reported twice -----

  lemma {:induction false} DistinctConcat<T>(a: seq<T>, b: seq<T>)
    requires Distinct(a) && Distinct(b)
    requires forall x :: x in a ==> x !in b
    ensures Distinct(a + b)
  {
    forall i, j | 0 <= i < j < |a + b|
      ensures (a + b)[i] != (a + b)[j]
    {
      if j < |a| {
        assert (a + b)[i] == a[i] && (a + b)[j] == a[j];
      } else if i < |a| {
        assert (a + b)[i] == a[i] && (a + b)[j] == b[j - |a|];
        assert b[j - |a|] in b;
      } else {
        assert (a + b)[i] == b[i - |a|] && (a + b)[j] == b[j - |a|];
      }
    }
  }

  /** A sequence without repetitions holds each of its elements exactly once. */
  lemma {:induction false} DistinctCount<T>(s: seq<T>, x: T)
    requires Distinct(s)
    ensures multiset(s)[x] == if x in s then 1 else 0
  {
    if s != [] {
      var n := |s| - 1;
      assert s == s[..n] + [s[n]];
      assert Distinct(s[..n]);
      DistinctCount(s[..n], x);
      assert x == s[n] ==> x !in s[..n];
    }
  }

  lemma WellFormedTail(entries: seq<Node>)
    requires WellFormed(entries) && entries != []
    ensures WellFormed(entries[1..])
  {
    assert forall i :: 0 <= i < |entries| - 1 ==> entries[1..][i] == entries[i + 1];
  }

  /** Distinct names in a directory give distinct paths for its accepted files. */
  lemma {:induction false} FilesInDistinct(rules: Rules, dirpath: Path, entries: seq<Node>)
    requires forall i, j :: 0 <= i < j < |entries| ==> entries[i].name != entries[j].name
    ensures Distinct(FilesIn(rules, dirpath, entries))
    decreases |entries|
  {
    if entries != [] {
      var n := |entries| - 1;
      var init, last := entries[..n], entries[n];
      var here := if last.File? && rules.accept(last.name) then [dirpath + [last.name]] else [];
      assert FilesIn(rules, dirpath, entries) == FilesIn(rules, dirpath, init) + here;
      FilesInDistinct(rules, dirpath, init);
      forall x | x in FilesIn(rules, dirpath, init)
        ensures x !in here
      {
        FilesInMembers(rules, dirpath, init, x);
        var i :| 0 <= i < |init| && init[i].File? && rules.accept(init[i].name) && x == dirpath + [init[i].name];
        assert init[i] == entries[i];
        assert x[|dirpath|] != last.name;
        assert (dirpath + [last.name])[|dirpath|] == last.name;
        assert x != dirpath + [last.name];
      }
      DistinctConcat(FilesIn(rules, dirpath, init), here);
    }
  }

  /** In a well-formed tree the walk of a directory reports no path twice. */
  lemma {:induction false} WalkDirDistinct(rules: Rules, dirpath: Path, entries: seq<Node>)
    requires WellFormed(entries)
    ensures Distinct(WalkDir(rules, dirpath, entries))
    decreases entries, 1
  {
    var m := |dirpath|;
    FilesInDistinct(rules, dirpath, entries);
    WalkSubdirsDistinct(rules, dirpath, entries);
    forall x | x in FilesIn(rules, dirpath, entries)
      ensures x !in WalkSubdirs(rules, dirpath, entries)
    {
      FilesInMembers(rules, dirpath, entries, x);
      WalkSubdirsMembers(rules, dirpath, entries, x);
      if x in WalkSubdirs(rules, dirpath, entries) {
        var i :| 0 <= i < |entries| && entries[i].Dir? && !rules.prune(entries[i].name) &&
          x in WalkDir(rules, dirpath + [entries[i].name], entries[i].children);
        WalkDirMembers(rules, dirpath + [entries[i].name], entries[i].children, x);
      }
    }
    DistinctConcat(FilesIn(rules, dirpath, entries), WalkSubdirs(rules, dirpath, entries));
  }

  lemma {:induction false} WalkSubdirsDistinct(rules: Rules, dirpath: Path, entries: seq<Node>)
    requires WellFormed(entries)
    ensures Distinct(WalkSubdirs(rules, dirpath, entries))
    decreases entries, 0
  {
    if entries != [] {
      var m := |dirpath|;
      var e, tail := entries[0], entries[1..];
      var first := if e.Dir? && !rules.prune(e.name) then WalkDir(rules, dirpath + [e.name], e.children) else [];
      assert WalkSubdirs(rules, dirpath, entries) == first + WalkSubdirs(rules, dirpath, tail);
      if e.Dir? && !rules.prune(e.name) {
        WalkDirDistinct(rules, dirpath + [e.name], e.children);
      }
      WellFormedTail(entries);
      WalkSubdirsDistinct(rules, dirpath, tail);
      forall x | x in first
        ensures x !in WalkSubdirs(rules, dirpath, tail)
      {
        FirstSubdirApart(rules, dirpath, entries, x);
      }
      DistinctConcat(first, WalkSubdirs(rules, dirpath, tail));
    }
  }

  /** A path from the first subdirectory's walk is not in the later ones': sibling names differ. */
  lemma FirstSubdirApart(rules: Rules, dirpath: Path, entries: seq<Node>, x: Path)
    requires WellFormed(entries) && entries != []
    requires entries[0].Dir? && !rules.prune(entries[0].name)
    requires x in WalkDir(rules, dirpath + [entries[0].name], entries[0].children)
    ensures x !in WalkSubdirs(rules, dirpath, entries[1..])
  {
    var m, e, tail := |dirpath|, entries[0], entries[1..];
    WalkDirMembers(rules, dirpath + [e.name], e.children, x);
    assert x[..m + 1] == dirpath + [e.name];
    assert x[m] == e.name;
    forall i | 0 <= i < |tail|
      ensures x[m] != tail[i].name
    {
      assert tail[i] == entries[i + 1];
    }
    WalkSubdirsNames(rules, dirpath, tail, x);
  }

  /** Every path from the subdirectory walks continues `dirpath` with the name of one of the entries. */
  lemma WalkSubdirsNames(rules: Rules, dirpath: Path, entries: seq<Node>, x: Path)
    ensures x in WalkSubdirs(rules, dirpath, entries) ==>
      |x| > |dirpath| && exists i :: 0 <= i < |entries| && x[|dirpath|] == entries[i].name
  {
    WalkSubdirsMembers(rules, dirpath, entries, x);
    if x in WalkSubdirs(rules, dirpath, entries) {
      var i :| 0 <= i < |entries| && entries[i].Dir? && !rules.prune(entries[i].name) &&
        x in WalkDir(rules, dirpath + [entries[i].name], entries[i].children);
      WalkDirMembers(rules, dirpath + [entries[i].name], entries[i].children, x);
      assert x[..|dirpath| + 1] == dirpath + [entries[i].name];
      assert x[|dirpath|] == entries[i].name;
    }
  }

  /**
   * Exactly once: in a well-formed tree, `get_all_supported_files` holds each
   * eligible file's path once and nothing else.
   */
  lemma SupportedFilesExactlyOnce(root: Node, p: Path)
    requires WellFormed(RootEntries(root))
    ensures multiset(SupportedFiles(root))[p] ==
      if Eligible(ScriptRules, p) && FileAt(RootEntries(root), p) then 1 else 0
  {
    WalkDirDistinct(ScriptRules, [], RootEntries(root));
    DistinctCount(SupportedFiles(root), p);
    WalkRootMembers(ScriptRules, root, p);
  }
}
