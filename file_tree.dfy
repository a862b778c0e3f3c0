/**
 * A snapshot of the directory tree under the project root. A directory is a
 * name and the entries that listing it yields, in listing order; a file is a
 * name and the text that reading it yields. A file is addressed by its path
 * below the root, one name per component.
 */
module FileTree {
  import opened Wrappers

  datatype Node = File(name: string, content: string) | Dir(name: string, children: seq<Node>)

  /** Names of the components below the root, outermost first. */
  type Path = seq<string>

  /** What listing the root yields; a root that is not a directory yields nothing (`os.walk` swallows the error). */
  function RootEntries(root: Node): seq<Node> {
    if root.Dir? then root.children else []
  }

  /** The position of the first entry called `name`, if any. */
  function FindChild(entries: seq<Node>, name: string): (r: Option<nat>)
    ensures r.Some? ==> r.value < |entries| && entries[r.value].name == name
    ensures r.Some? ==> forall j :: 0 <= j < r.value ==> entries[j].name != name
    ensures r.None? ==> forall j :: 0 <= j < |entries| ==> entries[j].name != name
  {
    if entries == [] then None
    else if entries[0].name == name then Some(0)
    else match FindChild(entries[1..], name)
      case None => None
      case Some(i) => Some(i + 1)
  }

  /**
   * Opening and reading the file at `path` below a directory with these
   * entries: `None` when a component is missing, when a component other than
   * the last is a file, or when the last one is a directory.
   */
  function Lookup(entries: seq<Node>, path: Path): Option<string>
    decreases entries
  {
    if path == [] then None
    else match FindChild(entries, path[0])
      case None => None
      case Some(i) =>
        if |path| == 1 then
          (if entries[i].File? then Some(entries[i].content) else None)
        else if entries[i].Dir? then Lookup(entries[i].children, path[1..])
        else None
  }

  /** Reference meaning of "there is a file at `path`", with no preference among equally named entries. */
  ghost predicate HasFile(entries: seq<Node>, path: Path, content: string)
    decreases entries
  {
    && path != []
    && exists i :: 0 <= i < |entries| && entries[i].name == path[0] &&
         if |path| == 1 then entries[i].File? && entries[i].content == content
         else entries[i].Dir? && HasFile(entries[i].children, path[1..], content)
  }

  /** A name a real directory entry can have: non-empty, without a separator, and neither "." nor "..". */
  predicate ValidName(name: string) {
    name != [] && '/' !in name && name != "." && name != ".."
  }

  /** Opening and reading the file at `path` below `root`: its text, or `None` when there is no file there. */
  function Reader(root: Node): Path -> Option<string> {
    path => Lookup(RootEntries(root), path)
  }

  /** What a real file system guarantees: valid names, and no two entries of one directory share a name. */
  predicate WellFormed(entries: seq<Node>)
    decreases entries
  {
    && (forall i, j :: 0 <= i < j < |entries| ==> entries[i].name != entries[j].name)
    && (forall i :: 0 <= i < |entries| ==> ValidName(entries[i].name))
    && (forall i :: 0 <= i < |entries| && entries[i].Dir? ==> WellFormed(entries[i].children))
  }

  /** In a well-formed tree, reading a path yields `content` exactly when a file with that content sits there. */
  lemma {:induction false} LookupFindsFile(entries: seq<Node>, path: Path, content: string)
    requires WellFormed(entries)
    ensures Lookup(entries, path) == Some(content) <==> HasFile(entries, path, content)
    decreases entries
  {
    if path != [] {
      var r := FindChild(entries, path[0]);
      if r.Some? {
        var i := r.value;
        if |path| > 1 && entries[i].Dir? {
          LookupFindsFile(entries[i].children, path[1..], content);
        }
        if HasFile(entries, path, content) {
          var k :| 0 <= k < |entries| && entries[k].name == path[0] &&
            if |path| == 1 then entries[k].File? && entries[k].content == content
            else entries[k].Dir? && HasFile(entries[k].children, path[1..], content);
          assert k == i;
        }
      }
    }
  }

  /** In a well-formed tree, every component of a file's path is a valid name. */
  lemma {:induction false} HasFileValidNames(entries: seq<Node>, path: Path, content: string)
    requires WellFormed(entries)
    requires HasFile(entries, path, content)
    ensures forall k :: 0 <= k < |path| ==> ValidName(path[k])
    decreases entries
  {
    var i :| 0 <= i < |entries| && entries[i].name == path[0] &&
      if |path| == 1 then entries[i].File? && entries[i].content == content
      else entries[i].Dir? && HasFile(entries[i].children, path[1..], content);
    if |path| > 1 {
      HasFileValidNames(entries[i].children, path[1..], content);
      forall k | 0 < k < |path|
        ensures ValidName(path[k])
      {
        assert path[k] == path[1..][k - 1];
      }
    }
  }
}
