# combine-py-files in Dafny

A model of `combine-py-files.py`, a script that gathers the Python sources of a
project into one file. It walks the directory tree below the project root
top-down. It prunes directories whose names are in `EXCLUDE_DIRS`, and keeps
every file whose name passes `is_file`. It sorts the collected paths. For each
path it writes a start marker, the file's text and an end marker into
`combined_project.py`.

The model has one module per step of the script.

- `Filters` (`filters.dfy`)
  - Holds the three configuration constants, `is_file` and `should_exclude_dir`.
  - Also holds the part of POSIX `os.path.splitext` that `is_file` uses, written
    out as Python defines it. The extension runs from the last dot of the last
    path component, and leading dots do not start one.
- `FileTree` (`file_tree.dfy`) models the project directory:
  - A snapshot of the tree as a datatype: a file is a name and its text, a
    directory a name and its listing in listing order.
  - A path is the list of names below the root.
  - Opening and reading a file is `Lookup`. `WellFormed` states what a real file
    system guarantees: unique, non-empty names without '/' in each directory,
    none of them "." or "..".
- `Traversal` (`traversal.dfy`) models `get_all_supported_files`:
  - `WalkDir` is the recursive specification of a top-down `os.walk` with
    `dirnames` pruned in place.
  - `GetAllSupportedFiles` is the walk as a loop over a stack of directories
    still to visit, the way `os.walk` runs. Its inner loop over `filenames` is
    `AcceptedFiles`. Both are proved equal to the specification.
- `TraversalFacts` (`traversal_facts.dfy`) proves what the walk reports: that
  it is sound and complete, that it prunes excluded subtrees, and that it
  reports each file exactly once.
- `Ordering` (`ordering.dfy`) models `supported_files.sort()`:
  - Python's `<` on `str`, with its textbook characterisation and the
    properties of an order.
  - An in-place sort on an `array<Path>` that uses only `<`, proved to leave
    the array ascending and a permutation of its input.
- `Output` (`output.dfy`) models `concatenate_files`:
  - The output stream is a string that the loop appends to.
  - The result is proved equal to `Render` of the entries.
  - When a file cannot be read, the result is what the script leaves behind.
  - Reading a file is the parameter `read`.
- `Combine` (`combine.dfy`) models `main`, the pipeline of the three steps.
  - It is proved to write, for a well-formed tree, one block per supported file
    in ascending order.
  - That sorted order is unique. Two trees holding the same files, listed in
    any order, give the same output (`Combine.ListingOrderIrrelevant`).
- `Seqs` (`seqs.dfy`) and `Wrappers` (`wrappers.dfy`) hold generic sequence
  facts and `Option`.

Paths are compared and printed as the '/'-joined names below the root, which
is what `os.path.relpath` gives for them. The script sorts the absolute
strings, which all start with the same root. `Ordering.AbsoluteOrderAgrees`
proves that both orders agree.

Two behaviours of the script follow from the code:

- A root that exists and can be written but cannot be listed gives an empty
  output file. `os.walk` swallows the listing error, so the walk reports
  nothing. The model lists nothing for a root that is not a directory
  (`FileTree.RootEntries`). A missing root is different: the output file lies
  inside the root (line 12), so opening it for writing (line 48) fails.
- The output is not the same across runs. `combined_project.py` is itself a
  `.py` file in the root, so a second run collects it. It is truncated before it
  is read. See "Left out".

## Model

| member | source | states |
|---|---|---|
| Filters.SplitExt | combine-py-files.py:21 | The root and the extension put back together give the name. The extension is empty, or is a dot followed by text with no dot and no '/'. |
| Filters.ExtensionFromLastDot | combine-py-files.py:21 | The extension is taken from the last dot. `stem.x` has the extension `.x` whatever dots `stem` holds, provided the base name of `stem` is not all dots. |
| Filters.LeadingDotsAreNoExtension | combine-py-files.py:21 | A name whose dots are all leading ones (".py", "..py") has an empty extension. |
| Filters.IsFileIff | combine-py-files.py:17-22 | `is_file` accepts a name exactly when it is not `README.md` and its base name is a stem ending in ".py". The stem must not be all dots. |
| Filters.AcceptedShape | combine-py-files.py:17-22 | Soundness half of `IsFileIff`: an accepted name's base name ends in ".py" after a stem that is not all dots. |
| Filters.ShapeAccepted | combine-py-files.py:21-22 | Completeness half of `IsFileIff`: such a base name has the extension ".py". |
| Filters.PlainNameIff | combine-py-files.py:38-39 | The same rule for the separator-free names that `os.walk` lists, stated on the name itself. |
| Filters.LastDotDecides | combine-py-files.py:15-22 | Only the last extension decides. `stem.x` is accepted exactly when `x` is "py" and the name is not excluded. So "a.py.txt" is rejected and "x.tar.py" accepted. |
| Filters.RejectedNameExamples | combine-py-files.py:9-22 | ".py" is rejected because it has no extension. "README.md" is rejected. |
| Filters.RFind | combine-py-files.py:21 | `str.rfind`: the index of the last occurrence of a character, or -1, and no occurrence after it. |
| Filters.ShouldExcludeDirExact | combine-py-files.py:24-28 | Exclusion is exact membership. Listed names are excluded. A longer name, another case or a path is not. No excluded name contains '/'. |
| FileTree.FindChild | combine-py-files.py:52 | Finding an entry by name gives the first entry with that name, or none when no entry has it. |
| FileTree.LookupFindsFile | combine-py-files.py:52-53 | In a well-formed tree, opening and reading a path gives a text exactly when a file with that text sits at the path. |
| Traversal.Subdirectories | combine-py-files.py:35 | The `dirnames` of a directory are exactly its directory entries. |
| Traversal.Unexcluded | combine-py-files.py:37 | The pruned `dirnames` are exactly the listed ones that `should_exclude_dir` does not reject. |
| Traversal.AcceptedFiles | combine-py-files.py:38-41 | The inner loop collects exactly the accepted files of one directory, as paths, in listing order. |
| Traversal.GetAllSupportedFiles | combine-py-files.py:30-42 | The walk loop returns exactly the top-down walk of the root with excluded subtrees pruned. |
| Traversal.VisitStep | combine-py-files.py:35-41 | Visiting the top directory reports its accepted files. It leaves on the stack exactly the walks still due. What is left to visit shrinks. |
| Traversal.ChildFramesWalk | combine-py-files.py:37 | Descending into the pruned `dirnames` reports exactly the walks of the kept subdirectories. |
| TraversalFacts.FilesInMembers | combine-py-files.py:38-41 | A directory contributes a path exactly when it holds a file entry of that name that `is_file` accepts. |
| TraversalFacts.WalkSubdirsMembers | combine-py-files.py:35-37 | The subdirectory walks report a path exactly when the walk of one kept subdirectory reports it. |
| TraversalFacts.WalkDirMembers | combine-py-files.py:34-42 | The walk below `dirpath` reports `p` exactly when `p` extends `dirpath` by the path of a file in the subtree. That file's name must be accepted, and no directory on the way may be pruned. |
| TraversalFacts.WalkDirSound | combine-py-files.py:34-42 | Soundness: every reported path is an accepted file under no pruned directory. |
| TraversalFacts.WalkDirComplete | combine-py-files.py:35-41 | Completeness: every accepted file under no pruned directory is reported. |
| TraversalFacts.WalkRootMembers | combine-py-files.py:34-42 | For any pair of name tests, the walk from the root reports exactly the eligible files of the tree. |
| TraversalFacts.SupportedFilesMembers | combine-py-files.py:34-42 | `get_all_supported_files` reports `p` exactly when a file sits at `p` and its name passes `is_file`. No directory name on `p` may be in `EXCLUDE_DIRS`. |
| TraversalFacts.PrunedSubtreeNeverReported | combine-py-files.py:37 | A file at any depth under an excluded directory is never reported, whatever its name. |
| TraversalFacts.SupportedFilesReadable | combine-py-files.py:40-53 | In a well-formed tree every reported path can be opened and read. |
| TraversalFacts.WalkDirDistinct | combine-py-files.py:34-42 | In a well-formed tree the walk reports no path twice. |
| TraversalFacts.SupportedFilesExactlyOnce | combine-py-files.py:35-41 | In a well-formed tree each eligible file occurs exactly once in the collected list, and nothing else occurs. |
| Ordering.StrLessIff | combine-py-files.py:63 | Python's `<` on `str` holds exactly when `a` is a proper prefix of `b`, or `a` has the smaller code point at the first difference. |
| Ordering.StrLessIrreflexive | combine-py-files.py:63 | No string is less than itself. |
| Ordering.StrLessAsymmetric | combine-py-files.py:63 | `a < b` excludes `b < a`. |
| Ordering.StrLessTransitive | combine-py-files.py:63 | `<` on `str` is transitive. |
| Ordering.StrLessTotal | combine-py-files.py:63 | Any two different strings are ordered one way or the other. |
| Ordering.StrLessCommonPrefix | combine-py-files.py:63 | A common prefix does not change the order. |
| Ordering.AbsoluteOrderAgrees | combine-py-files.py:61-63 | Sorting the absolute path strings built from the root gives the same order as sorting the paths below the root. |
| Ordering.JoinPathInjective | combine-py-files.py:40 | Joining valid names with '/' loses nothing: different paths have different texts, so the sort never meets a tie. |
| Ordering.PathLeqTotal | combine-py-files.py:63 | Any two paths can be placed in order. |
| Ordering.PathLeqTransitive | combine-py-files.py:63 | "Not greater than" on paths is transitive. |
| Ordering.AdjacentSortedIsSorted | combine-py-files.py:63 | A list where each path is no greater than the next is ascending. |
| Ordering.SortedDistinctIsStrict | combine-py-files.py:63 | An ascending list of paths with distinct texts is strictly ascending. |
| Ordering.StrictlySortedUnique | combine-py-files.py:63 | Two strictly ascending lists holding the same paths are equal. |
| Ordering.SortPaths | combine-py-files.py:63 | The in-place sort leaves the array ascending and a permutation of what it held. |
| Ordering.InsertInto | combine-py-files.py:63 | Moving `a[i]` down past greater paths extends the ordered prefix by one, only permutes the array, and leaves every path after `i` where it was. |
| Ordering.SwapStep | combine-py-files.py:63 | Swapping an out-of-order neighbour pair keeps both ordered runs and the multiset of paths. |
| Output.Entries | combine-py-files.py:49-53 | One entry per path, in order. Each entry is the path relative to the root together with the text read from it. |
| Output.ConcatenateFiles | combine-py-files.py:44-54 | The run completes exactly when every path can be read. Then the output is `Render` of the entries. Otherwise it stops at the first unreadable path. The output is then the blocks of the paths before it followed by that path's start marker. |
| Output.WriteStep | combine-py-files.py:51-54 | The start marker, the text and the end marker written for one more readable path give `Render` of one more entry. |
| Output.RenderStep | combine-py-files.py:49-54 | Writing one more file appends its block and changes nothing already written. |
| Output.RenderConcat | combine-py-files.py:49-54 | The output for two runs of entries is their outputs one after the other. |
| Output.RenderAt | combine-py-files.py:49-54 | No interleaving. The output is the blocks before entry `i`, then entry `i`'s whole block (start marker, text, end marker), then the blocks after it. |
| Combine.CombineFiles | combine-py-files.py:57-64 | `main` orders the collected paths ascending as a permutation of what the walk found. It completes exactly when every path can be read, and then writes `Render` of their entries. In a well-formed tree it always completes. |
| Combine.PermutationReadable | combine-py-files.py:61-64 | In a well-formed tree, any rearrangement of the collected paths can be read in full. |
| Combine.SortedOrderUnique | combine-py-files.py:61-63 | In a well-formed tree only one ascending arrangement of the collected paths exists. |
| Combine.ListingOrderIrrelevant | combine-py-files.py:57-64 | Take two well-formed trees that hold the same files with the same texts, in any listing order. They give the same sorted paths, every path can be read, and they give the same output. |
| Combine.SameFilesSameSupported | combine-py-files.py:30-42 | Two well-formed trees holding the same files collect the same paths, each as often. |
| Combine.SameFilesSameEntries | combine-py-files.py:49-53 | Two well-formed trees holding the same files give the same entries for a list of paths both can read. |
| Combine.SameFilesSameText | combine-py-files.py:52-53 | Two well-formed trees holding the same files give the same result for reading any path. |
| Combine.DistinctTexts | combine-py-files.py:40-63 | In a well-formed tree no two collected paths have the same text. |

## Left out

- File system access is not modelled: `os.walk`, `open`, `read`, `write`, and
  truncation of the output file when it is opened.
  - The tree is a snapshot value (`FileTree.Node`).
  - Reading a file is the function `read`, which gives `None` for a path that
    cannot be opened. For a snapshot, `read` is `FileTree.Reader`.
  - The output file is the returned string.
- Changes to the tree between the walk and the reads are not modelled. In the
  model the snapshot the walk lists is the one that is read.
- UTF-8 decoding and its failures (lines 48 and 52). Text is an opaque string.
  A file that fails to decode behaves like an unreadable one: `read` gives
  `None`.
- Symbolic links. The tree has only files and directories. `os.walk` does not
  follow directory links, and the tree has no links at all.
- Errors raised while listing directories. `os.walk` swallows them. The only
  such case modelled is a root that is not a directory, which lists nothing.
- How `os.walk` orders entries. It lists a directory in whatever order the
  operating system returns. The model takes that order from the tree and
  proves that the final output does not depend on it (`Combine.ListingOrderIrrelevant`).
- Platform details of `os.path.join` and `os.path.relpath` (lines 40 and 50).
  - Paths are lists of names joined with '/'.
  - `Output.RelPath` gives "." for the empty path, as `relpath` does for the root.
- `PROJECT_ROOT` (line 5) is not modelled. The script computes it from
  `__file__`. The model works on paths below the root, and
  `Ordering.AbsoluteOrderAgrees` covers the absolute strings the script sorts.
- The output file name (line 12) and the completion `print` (line 55) are not
  modelled. The print does not affect what is written. The name does, once the
  file exists from an earlier run: see the bullet on a second run below.
- The unused `import re`.
- Ordering.SortPaths: `list.sort()` is Timsort, which is also stable. The
  model uses an insertion sort and states only the result: ascending and a
  permutation. Stability does not matter here. In a well-formed tree no two
  paths compare equal, and `Combine.SortedOrderUnique` proves the ascending
  arrangement unique.
- Output.ConcatenateFiles: when a read fails, the script raises. What reaches
  the disk is the text written before the failure, the state the model
  returns with `ok` false. The exception itself and the buffering are not
  modelled.
- A second run is not modelled. That run collects the `combined_project.py`
  written by the first one, because it is a `.py` file in the root. The file is
  truncated when the output is opened, before it is read. What the read then
  sees depends on output buffering, so it is left out.
