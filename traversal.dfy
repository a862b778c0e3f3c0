/**
 * `get_all_supported_files`: a top-down `os.walk` from the root that, at
 * every directory, first drops the excluded subdirectory names from
 * `dirnames` (so that their subtrees are never entered) and then appends the
 * path of every accepted file of that directory.
 *
 * `WalkDir` is the specification: the paths in the order a top-down walk
 * reports them (a directory's own files in listing order, then each kept
 * subdirectory's walk in listing order). It is written for any pair of name
 * tests (`Rules`); the script's pair is `ScriptRules`. `GetAllSupportedFiles`
 * is the loop, driven by the stack of directories still to visit, and is
 * proved equal to the walk under `ScriptRules`.
 */
module Traversal {
  import opened FileTree
  import opened Filters

  /** The two name tests of a walk: which file names are collected, which directory names are pruned. */
  datatype Rules = Rules(accept: string -> bool, prune: string -> bool)

  /** The tests the script applies: `is_file` and `should_exclude_dir`. */
  const ScriptRules: Rules := Rules(IsFile, ShouldExcludeDir)

  /** Every accepted file of one directory, at `dirpath`, in listing order. */
  function FilesIn(rules: Rules, dirpath: Path, entries: seq<Node>): seq<Path>
    decreases |entries|
  {
    if entries == [] then []
    else
      var last := entries[|entries| - 1];
      FilesIn(rules, dirpath, entries[..|entries| - 1]) +
      (if last.File? && rules.accept(last.name) then [dirpath + [last.name]] else [])
  }

  /** The paths a top-down walk of the directory at `dirpath` reports. */
  function WalkDir(rules: Rules, dirpath: Path, entries: seq<Node>): seq<Path>
    decreases entries, 1
  {
    FilesIn(rules, dirpath, entries) + WalkSubdirs(rules, dirpath, entries)
  }

  /** The walks of the subdirectories among `entries` that survive pruning, in listing order. */
  function WalkSubdirs(rules: Rules, dirpath: Path, entries: seq<Node>): seq<Path>
    decreases entries, 0
  {
    if entries == [] then []
    else
      (if entries[0].Dir? && !rules.prune(entries[0].name)
       then WalkDir(rules, dirpath + [entries[0].name], entries[0].children)
       else []) +
      WalkSubdirs(rules, dirpath, entries[1..])
  }

  /** `get_all_supported_files(root)`, with paths relative to the root. */
  function SupportedFiles(root: Node): seq<Path> {
    WalkDir(ScriptRules, [], RootEntries(root))
  }

  /** A path the walk must report: an accepted file name under no pruned directory name. */
  predicate Eligible(rules: Rules, path: Path) {
    && path != []
    && rules.accept(path[|path| - 1])
    && forall j :: 0 <= j < |path| - 1 ==> !rules.prune(path[j])
  }

  /** Some file sits at `path` below these entries. */
  ghost predicate FileAt(entries: seq<Node>, path: Path) {
    exists content :: HasFile(entries, path, content)
  }

  // ----- the loop -----

  /** A directory the walk has yet to visit: where it is, and what listing it yields. */
  datatype Frame = Frame(dirpath: Path, entries: seq<Node>)

  /** What the walk still reports for the stack of directories `frames`, top first. */
  function Pending(frames: seq<Frame>): seq<Path> {
    if frames == [] then []
    else WalkDir(ScriptRules, frames[0].dirpath, frames[0].entries) + Pending(frames[1..])
  }

  /** The `dirnames` that `os.walk` yields: the directory entries, in listing order. */
  function Subdirectories(entries: seq<Node>): (dirs: seq<Node>)
    ensures forall d :: d in dirs <==> d in entries && d.Dir?
  {
    if entries == [] then []
    else (if entries[0].Dir? then [entries[0]] else []) + Subdirectories(entries[1..])
  }

  /** `[d for d in dirnames if not should_exclude_dir(d)]`. */
  function Unexcluded(dirs: seq<Node>): (kept: seq<Node>)
    ensures forall d :: d in kept <==> d in dirs && !ShouldExcludeDir(d.name)
  {
    if dirs == [] then []
    else (if ShouldExcludeDir(dirs[0].name) then [] else [dirs[0]]) + Unexcluded(dirs[1..])
  }

  /** The directories `os.walk` descends into next, top of the stack first. */
  function ChildFrames(dirpath: Path, dirs: seq<Node>): seq<Frame> {
    if dirs == [] then []
    else
      var children := if dirs[0].Dir? then dirs[0].children else [];
      [Frame(dirpath + [dirs[0].name], children)] + ChildFrames(dirpath, dirs[1..])
  }

  function Size(n: Node): nat {
    match n
    case File(_, _) => 1
    case Dir(_, children) => 1 + SizeOf(children)
  }

  function SizeOf(entries: seq<Node>): nat {
    if entries == [] then 0 else Size(entries[0]) + SizeOf(entries[1..])
  }

  /** A bound on what is left to visit, used to show that the walk ends. */
  function Workload(frames: seq<Frame>): nat {
    if frames == [] then 0 else 1 + SizeOf(frames[0].entries) + Workload(frames[1..])
  }

  /** The walk loop: the paths it returns are exactly the top-down walk of the root. */
  method GetAllSupportedFiles(root: Node) returns (supported: seq<Path>)
    ensures supported == SupportedFiles(root)
  {
    supported := [];
    var frames := [Frame([], RootEntries(root))];
    assert Pending(frames) == SupportedFiles(root) + Pending([]);
    while frames != []
      invariant supported + Pending(frames) == SupportedFiles(root)
      decreases Workload(frames)
    {
      var dirpath, entries := frames[0].dirpath, frames[0].entries;
      var dirnames := Subdirectories(entries);
      dirnames := Unexcluded(dirnames);
      var found := AcceptedFiles(dirpath, entries);
      supported := supported + found;
      VisitStep(frames);
      frames := ChildFrames(dirpath, dirnames) + frames[1..];
    }
  }

  /** The inner `for filename in filenames` loop: the accepted files of one directory, in listing order. */
  method AcceptedFiles(dirpath: Path, entries: seq<Node>) returns (found: seq<Path>)
    ensures found == FilesIn(ScriptRules, dirpath, entries)
  {
    found := [];
    var k := 0;
    assert entries[..0] == [];
    while k < |entries|
      invariant 0 <= k <= |entries|
      invariant found == FilesIn(ScriptRules, dirpath, entries[..k])
    {
      FilesInStep(ScriptRules, dirpath, entries, k);
      if entries[k].File? && IsFile(entries[k].name) {
        found := found + [dirpath + [entries[k].name]];
      }
      k := k + 1;
    }
    assert entries[..k] == entries;
  }

  // ----- lemmas for the loop -----

  /** Visiting the top directory reports its files now and leaves its kept subdirectories on the stack. */
  lemma VisitStep(frames: seq<Frame>)
    requires frames != []
    ensures var top, rest := frames[0], frames[1..];
      var next := ChildFrames(top.dirpath, Unexcluded(Subdirectories(top.entries))) + rest;
      && Pending(frames) == FilesIn(ScriptRules, top.dirpath, top.entries) + Pending(next)
      && Workload(next) < Workload(frames)
  {
    var top, rest := frames[0], frames[1..];
    var kept := ChildFrames(top.dirpath, Unexcluded(Subdirectories(top.entries)));
    ChildFramesWalk(top.dirpath, top.entries);
    PendingConcat(kept, rest);
    ChildFramesWorkload(top.dirpath, top.entries);
    WorkloadConcat(kept, rest);
  }

  lemma FilesInStep(rules: Rules, dirpath: Path, entries: seq<Node>, k: nat)
    requires k < |entries|
    ensures FilesIn(rules, dirpath, entries[..k + 1]) == FilesIn(rules, dirpath, entries[..k]) +
      (if entries[k].File? && rules.accept(entries[k].name) then [dirpath + [entries[k].name]] else [])
  {
    assert entries[..k + 1][..k] == entries[..k];
  }

  lemma {:induction false} PendingConcat(a: seq<Frame>, b: seq<Frame>)
    ensures Pending(a + b) == Pending(a) + Pending(b)
  {
    if a != [] {
      assert (a + b)[1..] == a[1..] + b;
      PendingConcat(a[1..], b);
    } else {
      assert a + b == b;
    }
  }

  lemma {:induction false} WorkloadConcat(a: seq<Frame>, b: seq<Frame>)
    ensures Workload(a + b) == Workload(a) + Workload(b)
  {
    if a != [] {
      assert (a + b)[1..] == a[1..] + b;
      WorkloadConcat(a[1..], b);
    } else {
      assert a + b == b;
    }
  }

  /** Descending into the pruned `dirnames` reports exactly the walks of the kept subdirectories. */
  lemma {:induction false} ChildFramesWalk(dirpath: Path, entries: seq<Node>)
    ensures Pending(ChildFrames(dirpath, Unexcluded(Subdirectories(entries)))) == WalkSubdirs(ScriptRules, dirpath, entries)
  {
    if entries != [] {
      ChildFramesWalk(dirpath, entries[1..]);
      var e := entries[0];
      var tail := Unexcluded(Subdirectories(entries[1..]));
      if e.Dir? {
        assert Subdirectories(entries) == [e] + Subdirectories(entries[1..]);
        assert ([e] + Subdirectories(entries[1..]))[1..] == Subdirectories(entries[1..]);
        if !ShouldExcludeDir(e.name) {
          assert Unexcluded(Subdirectories(entries)) == [e] + tail;
          assert ([e] + tail)[1..] == tail;
          var fs := ChildFrames(dirpath, tail);
          assert ChildFrames(dirpath, [e] + tail) == [Frame(dirpath + [e.name], e.children)] + fs;
          assert ([Frame(dirpath + [e.name], e.children)] + fs)[1..] == fs;
        } else {
          assert Unexcluded(Subdirectories(entries)) == tail;
        }
      } else {
        assert Subdirectories(entries) == Subdirectories(entries[1..]);
      }
    }
  }

  /** The kept subdirectories weigh no more than the directory that lists them. */
  lemma {:induction false} ChildFramesWorkload(dirpath: Path, entries: seq<Node>)
    ensures Workload(ChildFrames(dirpath, Unexcluded(Subdirectories(entries)))) <= SizeOf(entries)
  {
    if entries != [] {
      ChildFramesWorkload(dirpath, entries[1..]);
      var e := entries[0];
      var tail := Unexcluded(Subdirectories(entries[1..]));
      if e.Dir? {
        assert Subdirectories(entries) == [e] + Subdirectories(entries[1..]);
        assert ([e] + Subdirectories(entries[1..]))[1..] == Subdirectories(entries[1..]);
        if !ShouldExcludeDir(e.name) {
          assert Unexcluded(Subdirectories(entries)) == [e] + tail;
          assert ([e] + tail)[1..] == tail;
          var fs := ChildFrames(dirpath, tail);
          assert ChildFrames(dirpath, [e] + tail) == [Frame(dirpath + [e.name], e.children)] + fs;
          assert ([Frame(dirpath + [e.name], e.children)] + fs)[1..] == fs;
        } else {
          assert Unexcluded(Subdirectories(entries)) == tail;
        }
      } else {
        assert Subdirectories(entries) == Subdirectories(entries[1..]);
      }
    }
  }
}
