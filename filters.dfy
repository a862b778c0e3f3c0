/**
 * The two eligibility rules of the aggregator: which file names are
 * collected (`is_file`) and which directory names are pruned from the walk
 * (`should_exclude_dir`), together with the part of Python's POSIX
 * `os.path` that `is_file` relies on (`splitext`, and `basename` as an
 * independent reference for it).
 */
module Filters {
  import opened Seqs

  /** Directory names whose whole subtree is skipped; matched exactly, never as a prefix or path. */
  const ExcludeDirs: set<string> := {"__pycache__", "venv", ".git", "logs", "data", "artifacts", "build", "dist"}

  /** File names that are never collected, whatever their extension. */
  const ExcludeFiles: set<string> := {"README.md"}

  /** Extensions, dot included, of the files that are collected. */
  const SupportedExtensions: set<string> := {".py"}

  /** POSIX path separator and extension separator. */
  const Sep: char := '/'
  const ExtSep: char := '.'

  /** Index of the last occurrence of `c` in `s`, or -1 (Python's `str.rfind`). */
  function RFind(s: string, c: char): (i: int)
    ensures -1 <= i < |s|
    ensures 0 <= i ==> s[i] == c
    ensures forall j :: i < j < |s| ==> s[j] != c
  {
    if s == [] then -1
    else if s[|s| - 1] == c then |s| - 1
    else RFind(s[..|s| - 1], c)
  }

  predicate AllDots(s: string) {
    forall k :: 0 <= k < |s| ==> s[k] == ExtSep
  }

  /** `os.path.basename`: the part of `p` after its last separator. */
  function Basename(p: string): (b: string)
    ensures Sep !in b
    ensures |b| <= |p|
  {
    p[RFind(p, Sep) + 1..]
  }

  /**
   * `os.path.splitext`: `(root, ext)` where `ext` runs from the last dot of
   * the last path component to the end, unless every character of that
   * component before the dot is itself a dot (leading dots do not start an
   * extension), in which case `ext` is empty.
   */
  function SplitExt(p: string): (r: (string, string))
    ensures r.0 + r.1 == p
    ensures r.1 == [] || (r.1[0] == ExtSep && ExtSep !in r.1[1..] && Sep !in r.1)
  {
    var sepIndex := RFind(p, Sep);
    var dotIndex := RFind(p, ExtSep);
    if dotIndex > sepIndex && !AllDots(p[sepIndex + 1..dotIndex]) then
      (p[..dotIndex], p[dotIndex..])
    else
      (p, [])
  }

  function Extension(p: string): string {
    SplitExt(p).1
  }

  /** `is_file`: a supported extension and not an excluded name. */
  predicate IsFile(filename: string) {
    Extension(filename) in SupportedExtensions && filename !in ExcludeFiles
  }

  /** `should_exclude_dir`: exact membership of the bare name. */
  predicate ShouldExcludeDir(dirname: string) {
    dirname in ExcludeDirs
  }

  /**
   * The whole acceptance rule, stated through the base name alone: a name is
   * collected exactly when it is not excluded, its base name ends in ".py",
   * and what precedes that ".py" is not made of dots only.
   */
  lemma IsFileIff(name: string)
    ensures IsFile(name) <==>
      var b := Basename(name);
      && name !in ExcludeFiles
      && |b| > 3
      && b[|b| - 3..] == ".py"
      && !AllDots(b[..|b| - 3])
  {
    var b := Basename(name);
    if IsFile(name) {
      AcceptedShape(name);
    }
    if name !in ExcludeFiles && |b| > 3 && b[|b| - 3..] == ".py" && !AllDots(b[..|b| - 3]) {
      ShapeAccepted(name);
    }
  }

  /** An accepted name's base name is a stem that is not all dots, followed by ".py". */
  lemma AcceptedShape(name: string)
    requires IsFile(name)
    ensures var b := Basename(name);
      |b| > 3 && b[|b| - 3..] == ".py" && !AllDots(b[..|b| - 3])
  {
    var b := Basename(name);
    var s := RFind(name, Sep);
    var d := RFind(name, ExtSep);
    assert b == name[s + 1..];
    assert Extension(name) == ".py";
    assert d > s && !AllDots(name[s + 1..d]) && name[d..] == ".py";
    assert d == |name| - 3;
    assert b[|b| - 3..] == name[d..];
    assert b[..|b| - 3] == name[s + 1..d];
  }

  /** A base name made of a stem that is not all dots and ".py" has the extension ".py". */
  lemma ShapeAccepted(name: string)
    requires var b := Basename(name);
      |b| > 3 && b[|b| - 3..] == ".py" && !AllDots(b[..|b| - 3])
    ensures Extension(name) == ".py"
  {
    var s, n := RFind(name, Sep), |name|;
    ShapeIndices(name);
    RFindIs(name, ExtSep, n - 3);
    SplitExtAt(name, s, n - 3);
  }

  /** Where the pieces of such a base name sit in the whole name. */
  lemma ShapeIndices(name: string)
    requires var b := Basename(name);
      |b| > 3 && b[|b| - 3..] == ".py" && !AllDots(b[..|b| - 3])
    ensures var s, n := RFind(name, Sep), |name|;
      && s < n - 3
      && name[n - 3..] == ".py"
      && name[n - 3] == ExtSep && name[n - 2] != ExtSep && name[n - 1] != ExtSep
      && !AllDots(name[s + 1..n - 3])
  {
    var s := RFind(name, Sep);
    assert Basename(name) == name[s + 1..];
    SuffixShape(name, s + 1, Basename(name));
  }

  /** A suffix `b` of `p` made of a stem that is not all dots and ".py": the same pieces, indexed in `p`. */
  lemma SuffixShape(p: string, i: nat, b: string)
    requires i <= |p| && b == p[i..]
    requires |b| > 3 && b[|b| - 3..] == ".py" && !AllDots(b[..|b| - 3])
    ensures var n := |p|;
      && i < n - 3
      && p[n - 3..] == ".py"
      && p[n - 3] == ExtSep && p[n - 2] != ExtSep && p[n - 1] != ExtSep
      && !AllDots(p[i..n - 3])
  {
    var n, m := |p|, |b|;
    assert b[m - 3] == '.' && b[m - 2] == 'p' && b[m - 1] == 'y' by {
      var t := b[m - 3..];
      assert t[0] == '.' && t[1] == 'p' && t[2] == 'y';
    }
    assert p[n - 3] == b[m - 3] && p[n - 2] == b[m - 2] && p[n - 1] == b[m - 1];
    var ext := p[n - 3..];
    assert ext[0] == '.' && ext[1] == 'p' && ext[2] == 'y';
    ThreeElements(ext);
    assert ext == ".py";
    var k :| 0 <= k < m - 3 && b[..m - 3][k] != ExtSep;
    assert p[i..n - 3][k] == b[k];
  }

  /** The extension is taken from the LAST dot: `stem.x` has extension `.x` when `stem`'s base name is not all dots. */
  lemma ExtensionFromLastDot(stem: string, x: string)
    requires ExtSep !in x && Sep !in x
    requires !AllDots(Basename(stem))
    ensures Extension(stem + "." + x) == "." + x
  {
    var p := stem + "." + x;
    var s := RFind(stem, Sep);
    var d := |stem|;
    RFindSkip(stem + ".", x, ExtSep);
    assert RFind(stem + ".", ExtSep) == d;
    assert RFind(p, ExtSep) == d;
    RFindSkip(stem, ".", Sep);
    RFindSkip(stem + ".", x, Sep);
    assert RFind(p, Sep) == s;
    assert p[s + 1..d] == stem[s + 1..] == Basename(stem);
    SplitExtAt(p, s, d);
    assert p[d..] == "." + x;
  }

  /** `RFind` finds `k` when `s[k]` is `c` and no later character is. */
  lemma RFindIs(s: string, c: char, k: int)
    requires 0 <= k < |s| && s[k] == c
    requires forall j :: k < j < |s| ==> s[j] != c
    ensures RFind(s, c) == k
  {
  }

  /** `splitext` with its two searches done: a dot after the last separator, not preceded by dots only, starts the extension. */
  lemma SplitExtAt(p: string, s: int, d: int)
    requires s == RFind(p, Sep) && d == RFind(p, ExtSep)
    requires s < d && !AllDots(p[s + 1..d])
    ensures Extension(p) == p[d..]
  {
  }

  /** Appending characters other than `c` leaves the last occurrence of `c` where it was. */
  lemma {:induction false} RFindSkip(a: string, b: string, c: char)
    requires c !in b
    ensures RFind(a + b, c) == RFind(a, c)
    decreases |b|
  {
    if b == [] {
      assert a + b == a;
    } else {
      var n := |b| - 1;
      assert (a + b)[..|a + b| - 1] == a + b[..n];
      assert (a + b)[|a + b| - 1] == b[n];
      RFindSkip(a, b[..n], c);
    }
  }

  /** A name whose only dots are leading ones (".py", "..py", "py") has no extension. */
  lemma {:induction false} LeadingDotsAreNoExtension(dots: string, x: string)
    requires AllDots(dots)
    requires ExtSep !in x && Sep !in x
    ensures Extension(dots + x) == []
  {
    var p := dots + x;
    var d := RFind(p, ExtSep);
    assert forall j :: |dots| <= j < |p| ==> p[j] == x[j - |dots|];
    assert d < |dots|;
    assert forall j :: 0 <= j < |p| ==> p[j] != Sep;
    assert RFind(p, Sep) == -1;
    if d >= 0 {
      assert p[..d] == dots[..d];
      assert AllDots(p[0..d]);
    }
  }

  /**
   * Only the last extension decides: `stem.x` is collected exactly when `x`
   * is "py" and the name is not excluded, whatever extensions `stem` carries
   * ("a.py.txt" is rejected, "x.tar.py" accepted).
   */
  lemma LastDotDecides(stem: string, x: string)
    requires ExtSep !in x && Sep !in x
    requires !AllDots(Basename(stem))
    ensures IsFile(stem + "." + x) <==> x == "py" && stem + "." + x !in ExcludeFiles
  {
    ExtensionFromLastDot(stem, x);
    if "." + x == ".py" {
      assert x == ("." + x)[1..] == "py";
    }
  }

  /** Concrete names: ".py" has only a leading dot, hence no extension; "README.md" is excluded by name. */
  lemma RejectedNameExamples()
    ensures !IsFile(".py")
    ensures !IsFile("README.md")
  {
    LeadingDotsAreNoExtension(".", "py");
    assert "." + "py" == ".py";
  }

  /**
   * The rule for the names `os.walk` lists, which hold no separator: the
   * name ends in ".py" after a stem that is not made of dots only, and is
   * not excluded.
   */
  lemma PlainNameIff(name: string)
    requires Sep !in name
    ensures IsFile(name) <==>
      && name !in ExcludeFiles
      && |name| > 3
      && name[|name| - 3..] == ".py"
      && !AllDots(name[..|name| - 3])
  {
    assert RFind(name, Sep) == -1;
    assert Basename(name) == name[0..] == name;
    IsFileIff(name);
  }

  /** Exclusion is by exact name: neither a longer name, a different case, nor a path counts. */
  lemma ShouldExcludeDirExact()
    ensures ShouldExcludeDir("venv") && ShouldExcludeDir("__pycache__")
    ensures !ShouldExcludeDir("venv2") && !ShouldExcludeDir("Build") && !ShouldExcludeDir("src/venv")
    ensures forall d :: ShouldExcludeDir(d) ==> Sep !in d
  {
  }
}
