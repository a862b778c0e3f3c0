/**
 * `concatenate_files`: for each path in order, write a start marker naming
 * the path relative to the root, the file's text, and an end marker, all to
 * one output stream. The stream is the string the loop appends to; `Render`
 * is what it must hold once every file has been read. Opening and reading a
 * file is the parameter `read`, which gives a file's text or `None` when
 * it cannot be read.
 */
module Output {
  import opened Wrappers
  import opened FileTree
  import opened Ordering
  import opened Seqs

  /** One file as it appears in the output: its path relative to the root and its text. */
  datatype Entry = Entry(relPath: string, content: string)

  function StartMarker(relPath: string): string {
    "\n# ===== Start of " + relPath + " =====\n\n"
  }

  function EndMarker(relPath: string): string {
    "\n# ===== End of " + relPath + " =====\n"
  }

  /** `os.path.relpath(file_path, PROJECT_ROOT)`: the components below the root joined by '/', or "." for the root itself. */
  function RelPath(path: Path): string {
    if path == [] then "." else JoinPath(path)
  }

  /** The text written for one file. */
  function Block(e: Entry): string {
    StartMarker(e.relPath) + e.content + EndMarker(e.relPath)
  }

  /** The whole output: the blocks of the entries, in order. */
  function Render(entries: seq<Entry>): string {
    if entries == [] then []
    else Render(entries[..|entries| - 1]) + Block(entries[|entries| - 1])
  }

  /** Every path can be opened and read. */
  predicate AllReadable(read: Path -> Option<string>, paths: seq<Path>) {
    forall i :: 0 <= i < |paths| ==> read(paths[i]).Some?
  }

  /** The entries the files at `paths` give, in order. */
  function Entries(read: Path -> Option<string>, paths: seq<Path>): (es: seq<Entry>)
    requires AllReadable(read, paths)
    ensures |es| == |paths|
    ensures forall i :: 0 <= i < |paths| ==>
      es[i] == Entry(RelPath(paths[i]), read(paths[i]).value)
  {
    if paths == [] then []
    else
      var init, last := paths[..|paths| - 1], paths[|paths| - 1];
      assert forall i :: 0 <= i < |init| ==> init[i] == paths[i];
      Entries(read, init) + [Entry(RelPath(last), read(last).value)]
  }

  /**
   * The writing loop. When every path can be read, the output is `Render`
   * of their entries. Otherwise the run stops at the first path that cannot
   * be read, leaving behind what was written: the blocks before it and that
   * path's start marker, which is written before the file is opened.
   */
  method ConcatenateFiles(read: Path -> Option<string>, paths: seq<Path>) returns (output: string, ok: bool)
    ensures ok <==> AllReadable(read, paths)
    ensures ok ==> output == Render(Entries(read, paths))
    ensures !ok ==> exists k ::
      && 0 <= k < |paths|
      && AllReadable(read, paths[..k])
      && read(paths[k]).None?
      && output == Render(Entries(read, paths[..k])) + StartMarker(RelPath(paths[k]))
  {
    output := [];
    var i := 0;
    assert paths[..0] == [];
    while i < |paths|
      invariant 0 <= i <= |paths|
      invariant AllReadable(read, paths[..i])
      invariant output == Render(Entries(read, paths[..i]))
    {
      ghost var before := output;
      var relPath := RelPath(paths[i]);
      output := output + StartMarker(relPath);
      var content := read(paths[i]);
      if content.None? {
        ok := false;
        assert !AllReadable(read, paths) by {
          assert read(paths[i]).None?;
        }
        return;
      }
      output := output + content.value;
      output := output + EndMarker(relPath);
      WriteStep(read, paths, i, before);
      i := i + 1;
    }
    assert paths[..i] == paths;
    ok := true;
  }

  /** Reading one more path extends the entries by that path's entry. */
  lemma EntriesStep(read: Path -> Option<string>, paths: seq<Path>, i: nat)
    requires i < |paths|
    requires AllReadable(read, paths[..i])
    requires read(paths[i]).Some?
    ensures AllReadable(read, paths[..i + 1])
    ensures Entries(read, paths[..i + 1]) ==
      Entries(read, paths[..i]) + [Entry(RelPath(paths[i]), read(paths[i]).value)]
  {
    PrefixOfPrefix(paths, i, i + 1);
  }

  /** One pass of the loop: the three writes for a readable path give the output for one more path. */
  lemma WriteStep(read: Path -> Option<string>, paths: seq<Path>, i: nat, before: string)
    requires i < |paths|
    requires AllReadable(read, paths[..i])
    requires before == Render(Entries(read, paths[..i]))
    requires read(paths[i]).Some?
    ensures var rel, content := RelPath(paths[i]), read(paths[i]).value;
      && AllReadable(read, paths[..i + 1])
      && before + StartMarker(rel) + content + EndMarker(rel) == Render(Entries(read, paths[..i + 1]))
  {
    var entry := Entry(RelPath(paths[i]), read(paths[i]).value);
    EntriesStep(read, paths, i);
    RenderStep(Entries(read, paths[..i]), entry);
  }

  // ----- what the output looks like -----

  /** Writing one more file appends its block and changes nothing already written. */
  lemma RenderStep(es: seq<Entry>, e: Entry)
    ensures Render(es + [e]) == Render(es) + Block(e)
  {
    AppendOne(es, e);
  }

  /** Writing two runs of entries one after the other gives their outputs one after the other. */
  lemma {:induction false} RenderConcat(a: seq<Entry>, b: seq<Entry>)
    ensures Render(a + b) == Render(a) + Render(b)
    decreases |b|
  {
    if b == [] {
      assert a + b == a;
    } else {
      var n := |b| - 1;
      AppendInitLast(a, b);
      InitLast(b);
      RenderStep(a + b[..n], b[n]);
      RenderStep(b[..n], b[n]);
      RenderConcat(a, b[..n]);
      AppendAssoc(Render(a), Render(b[..n]), Block(b[n]));
    }
  }

  /**
   * No interleaving: the output is the blocks before entry `i`, then entry
   * `i`'s whole block, then the blocks after it.
   */
  lemma RenderAt(entries: seq<Entry>, i: nat)
    requires i < |entries|
    ensures Render(entries) == Render(entries[..i]) + Block(entries[i]) + Render(entries[i + 1..])
  {
    SplitAt(entries, i);
    RenderConcat(entries[..i] + [entries[i]], entries[i + 1..]);
    RenderStep(entries[..i], entries[i]);
  }
}
