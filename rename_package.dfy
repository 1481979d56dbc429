/**
 The repository-wide rename script: it asks for a new organization, title
 and package name, asks for confirmation, then walks the repository and
 rewrites every selected file in which a default value occurs.

 The repository is a `Dir` tree of file names plus a `Repo` object holding
 each file's text; prompts are the answer strings typed by the user.
 */
module RenamePackage {
  import opened PyStr

  /** A file's location below the repository root: the directory names, then the file name. */
  type Path = seq<string>

  const DefaultOrg := "procube-open"
  const DefaultTitle := "[Enter Title Here]"
  const DefaultPackage := "docusaurus-template"

  const ExcludeDirs: set<string> :=
    {".git", "node_modules", ".docusaurus", "build", ".docusaurus-template", "__pycache__", ".venv"}
  const ExcludeFiles: set<string> := {".DS_Store", "package-lock.json"}
  const TargetExtensions: set<string> :=
    {".py", ".json", ".md", ".ts", ".tsx", ".js", ".jsx", ".yaml", ".yml", ".sh", ".txt", ".css", ".jsonc"}

  // ---------------------------------------------------------------- prompts

  /** The value a prompt yields for the line `typed`: the stripped answer, or
      the default when the answer is blank. */
  function GetInputWithDefault(typed: string, default: string): (r: string)
    ensures Blank(typed) ==> r == default
    ensures !Blank(typed) ==>
              r != "" && !IsSpace(r[0]) && !IsSpace(r[|r| - 1]) && r == Strip(typed)
    ensures default != "" ==> r != ""
  {
    var answer := Strip(typed);
    if answer != "" then answer else default
  }

  /** The confirmation test: the stripped, lower-cased answer is exactly "y". */
  function Confirmed(answer: string): (ok: bool)
    ensures ok <==> Strip(answer) == "y" || Strip(answer) == "Y"
  {
    var a := Strip(answer);
    var l := Lower(a);
    assert |l| == 1 ==> l[0] == LowerChar(a[0]);
    l == "y"
  }

  // ---------------------------------------------------------- replacements

  /** The substitutions, in the dictionary's insertion order. */
  type Replacements = seq<(string, string)>

  /** The text after `content = content.replace(old, new)` for every pair in turn. */
  function ApplyAll(content: string, reps: Replacements): string
    decreases |reps|
  {
    if reps == [] then content
    else Replace(ApplyAll(content, reps[..|reps| - 1]), reps[|reps| - 1].0, reps[|reps| - 1].1)
  }

  /** The pairs act one after another: each works on the previous one's output. */
  lemma {:induction false} ApplyAllSequential(content: string, a: Replacements, b: Replacements)
    ensures ApplyAll(content, a + b) == ApplyAll(ApplyAll(content, a), b)
    decreases |b|
  {
    if b == [] {
      assert a + b == a;
    } else {
      var b' := b[..|b| - 1];
      assert (a + b)[..|a + b| - 1] == a + b';
      ApplyAllSequential(content, a, b');
    }
  }

  /** Substitutions that map every value to itself leave any text as it was. */
  lemma {:induction false} ApplyAllIdentity(content: string, reps: Replacements)
    requires forall i :: 0 <= i < |reps| ==> reps[i].0 == reps[i].1
    ensures ApplyAll(content, reps) == content
    decreases |reps|
  {
    if reps != [] {
      ApplyAllIdentity(content, reps[..|reps| - 1]);
      ReplaceSelf(content, reps[|reps| - 1].0);
    }
  }

  /** The substitutions the script builds from the three answers. */
  function ReplacementsFor(org: string, title: string, package: string): (reps: Replacements)
    ensures |reps| == 3
    ensures reps[0].0 == DefaultOrg && reps[1].0 == DefaultTitle && reps[2].0 == DefaultPackage
  {
    [(DefaultOrg, org), (DefaultTitle, title), (DefaultPackage, package)]
  }

  // ------------------------------------------------------------ file system

  /** The files whose read raises (missing, not UTF-8, no permission) and
      those whose write raises. */
  datatype Faults = Faults(unreadable: set<Path>, unwritable: set<Path>)

  /** Whether `replace_in_file` rewrites `p` and reports True. */
  predicate Rewrites(contents: map<Path, string>, p: Path, reps: Replacements, faults: Faults) {
    && p in contents
    && p !in faults.unreadable
    && p !in faults.unwritable
    && ApplyAll(contents[p], reps) != contents[p]
  }

  /** The files' contents and the reported files after `replace_in_file` has
      run on each of `paths` in order. */
  function RewriteAll(contents: map<Path, string>, paths: seq<Path>, reps: Replacements, faults: Faults)
    : (res: (map<Path, string>, seq<Path>))
    ensures res.0.Keys == contents.Keys
    ensures |res.1| <= |paths|
    decreases |paths|
  {
    if paths == [] then (contents, [])
    else
      var prev := RewriteAll(contents, paths[..|paths| - 1], reps, faults);
      var p := paths[|paths| - 1];
      if Rewrites(prev.0, p, reps, faults) then (prev.0[p := ApplyAll(prev.0[p], reps)], prev.1 + [p])
      else prev
  }

  /** With substitutions that change nothing, no file is written and none is reported. */
  lemma {:induction false} RewriteAllIdentity(contents: map<Path, string>, paths: seq<Path>, reps: Replacements, faults: Faults)
    requires forall i :: 0 <= i < |reps| ==> reps[i].0 == reps[i].1
    ensures RewriteAll(contents, paths, reps, faults) == (contents, [])
    decreases |paths|
  {
    if paths != [] {
      RewriteAllIdentity(contents, paths[..|paths| - 1], reps, faults);
      var p := paths[|paths| - 1];
      if p in contents { ApplyAllIdentity(contents[p], reps); }
    }
  }

  /** A file that is not visited keeps its text. */
  lemma {:induction false} RewriteAllFrame(contents: map<Path, string>, paths: seq<Path>, reps: Replacements, faults: Faults, q: Path)
    requires q in contents && q !in paths
    ensures RewriteAll(contents, paths, reps, faults).0[q] == contents[q]
    decreases |paths|
  {
    if paths != [] {
      assert paths == paths[..|paths| - 1] + [paths[|paths| - 1]];
      RewriteAllFrame(contents, paths[..|paths| - 1], reps, faults, q);
    }
  }

  predicate Distinct(paths: seq<Path>) {
    forall i, j :: 0 <= i < j < |paths| ==> paths[i] != paths[j]
  }

  lemma DistinctInit(paths: seq<Path>)
    requires Distinct(paths) && paths != []
    ensures Distinct(paths[..|paths| - 1]) && paths[|paths| - 1] !in paths[..|paths| - 1]
  {
    var init := paths[..|paths| - 1];
    forall k | 0 <= k < |init| ensures init[k] != paths[|paths| - 1] {
      assert init[k] == paths[k];
    }
  }

  lemma DistinctTail(paths: seq<Path>)
    requires Distinct(paths) && paths != []
    ensures Distinct(paths[1..]) && paths[0] !in paths[1..]
  {
    forall k | 0 <= k < |paths| - 1 ensures paths[1..][k] != paths[0] {
      assert paths[1..][k] == paths[k + 1];
    }
  }

  /** The visited files that `replace_in_file` would rewrite in the original tree, in visiting order. */
  function ChangedFiles(contents: map<Path, string>, paths: seq<Path>, reps: Replacements, faults: Faults): (r: seq<Path>)
    ensures forall p :: p in r <==> p in paths && Rewrites(contents, p, reps, faults)
    decreases |paths|
  {
    if paths == [] then []
    else
      var prev := ChangedFiles(contents, paths[..|paths| - 1], reps, faults);
      var p := paths[|paths| - 1];
      assert forall q :: q in paths <==> q in paths[..|paths| - 1] || q == p by {
        assert paths == paths[..|paths| - 1] + [p];
      }
      if Rewrites(contents, p, reps, faults) then prev + [p] else prev
  }

  /** When no file is visited twice, the reported files are exactly those the
      substitutions change in the original tree, each such file holds the
      substituted text, and every other file keeps its text. */
  lemma {:induction false} RewriteAllDistinct(contents: map<Path, string>, paths: seq<Path>, reps: Replacements, faults: Faults)
    requires Distinct(paths)
    ensures RewriteAll(contents, paths, reps, faults).1 == ChangedFiles(contents, paths, reps, faults)
    ensures forall q :: q in contents ==>
              RewriteAll(contents, paths, reps, faults).0[q]
              == if q in paths && Rewrites(contents, q, reps, faults) then ApplyAll(contents[q], reps) else contents[q]
    decreases |paths|
  {
    if paths != [] {
      var init := paths[..|paths| - 1];
      var p := paths[|paths| - 1];
      DistinctInit(paths);
      assert paths == init + [p];
      RewriteAllDistinct(contents, init, reps, faults);
      var prev := RewriteAll(contents, init, reps, faults);
      if p in contents {
        RewriteAllFrame(contents, init, reps, faults, p);
      }
      assert Rewrites(prev.0, p, reps, faults) == Rewrites(contents, p, reps, faults);
      forall q | q in contents
        ensures RewriteAll(contents, paths, reps, faults).0[q]
                == if q in paths && Rewrites(contents, q, reps, faults) then ApplyAll(contents[q], reps) else contents[q]
      {
        assert q in paths <==> q in init || q == p;
      }
    }
  }

  // ------------------------------------------------------------------- walk

  /** A directory: the names of its files and its subdirectories, in listing order. */
  datatype Dir = Dir(files: seq<string>, subdirs: seq<Subdir>)
  datatype Subdir = Subdir(name: string, tree: Dir)

  /** A listed subdirectory lies inside its parent (the termination measure of the walk). */
  lemma SubdirSmaller(s: Subdir, parent: Dir)
    requires s in parent.subdirs
    ensures s.tree < parent
  {
    var i :| 0 <= i < |parent.subdirs| && parent.subdirs[i] == s;
    assert parent.subdirs[i].tree < parent;
  }

  /** `dirs[:] = [d for d in dirs if d not in excl]`. */
  function Prune(subs: seq<Subdir>, excl: set<string>): (r: seq<Subdir>)
    ensures |r| <= |subs|
    ensures forall s :: s in r <==> s in subs && s.name !in excl
  {
    if subs == [] then []
    else if subs[0].name in excl then Prune(subs[1..], excl)
    else [subs[0]] + Prune(subs[1..], excl)
  }

  /** The `(root, files)` pairs that top-down `os.walk` yields for `d`, which
      sits at `root`, when every step prunes its subdirectories by `excl`:
      a directory's own files come first, then each kept subdirectory's walk. */
  function Walk(d: Dir, root: Path, excl: set<string>): seq<(Path, seq<string>)>
    decreases d, |d.subdirs| + 1
  {
    [(root, d.files)] + WalkEach(d, Prune(d.subdirs, excl), root, excl)
  }

  function WalkEach(parent: Dir, subs: seq<Subdir>, root: Path, excl: set<string>): seq<(Path, seq<string>)>
    requires forall s :: s in subs ==> s in parent.subdirs
    decreases parent, |subs|
  {
    if subs == [] then []
    else
      SubdirSmaller(subs[0], parent);
      Walk(subs[0].tree, root + [subs[0].name], excl) + WalkEach(parent, subs[1..], root, excl)
  }

  /** `[root / f for f in files]`. */
  function FilesAt(root: Path, files: seq<string>): (r: seq<Path>)
    ensures |r| == |files|
    ensures forall k :: 0 <= k < |files| ==> r[k] == root + [files[k]]
  {
    if files == [] then [] else FilesAt(root, files[..|files| - 1]) + [root + [files[|files| - 1]]]
  }

  /** The file paths of a walk, in the order the walk reaches them. */
  function FlatPaths(walk: seq<(Path, seq<string>)>): seq<Path> {
    if walk == [] then [] else FlatPaths(walk[..|walk| - 1]) + FilesAt(walk[|walk| - 1].0, walk[|walk| - 1].1)
  }

  /** Every file below `d` in walk order, with nothing pruned. */
  function AllFiles(d: Dir, root: Path): seq<Path>
    decreases d, |d.subdirs| + 1
  {
    FilesAt(root, d.files) + AllFilesEach(d, d.subdirs, root)
  }

  function AllFilesEach(parent: Dir, subs: seq<Subdir>, root: Path): seq<Path>
    requires forall s :: s in subs ==> s in parent.subdirs
    decreases parent, |subs|
  {
    if subs == [] then []
    else
      SubdirSmaller(subs[0], parent);
      AllFiles(subs[0].tree, root + [subs[0].name]) + AllFilesEach(parent, subs[1..], root)
  }

  /** No directory of `p` from depth `from` on is excluded. */
  predicate NotPruned(p: Path, from: nat, excl: set<string>) {
    forall i :: from <= i < |p| - 1 ==> p[i] !in excl
  }

  function KeepUnpruned(paths: seq<Path>, from: nat, excl: set<string>): (r: seq<Path>)
    ensures forall p :: p in r <==> p in paths && NotPruned(p, from, excl)
  {
    if paths == [] then []
    else (if NotPruned(paths[0], from, excl) then [paths[0]] else []) + KeepUnpruned(paths[1..], from, excl)
  }

  lemma {:induction false} FlatPathsAppend(a: seq<(Path, seq<string>)>, b: seq<(Path, seq<string>)>)
    ensures FlatPaths(a + b) == FlatPaths(a) + FlatPaths(b)
    decreases |b|
  {
    if b == [] {
      assert a + b == a;
    } else {
      var b' := b[..|b| - 1];
      var last := FilesAt(b[|b| - 1].0, b[|b| - 1].1);
      assert (a + b)[..|a + b| - 1] == a + b' && (a + b)[|a + b| - 1] == b[|b| - 1];
      FlatPathsAppend(a, b');
      calc {
        FlatPaths(a + b);
        FlatPaths(a + b') + last;
        (FlatPaths(a) + FlatPaths(b')) + last;
        FlatPaths(a) + (FlatPaths(b') + last);
      }
    }
  }

  lemma {:induction false} KeepUnprunedAppend(a: seq<Path>, b: seq<Path>, from: nat, excl: set<string>)
    ensures KeepUnpruned(a + b, from, excl) == KeepUnpruned(a, from, excl) + KeepUnpruned(b, from, excl)
  {
    if a == [] {
      assert a + b == b;
    } else {
      assert (a + b)[1..] == a[1..] + b;
      KeepUnprunedAppend(a[1..], b, from, excl);
    }
  }

  /** Paths whose directory at depth `from` is kept need not be checked there. */
  lemma {:induction false} KeepUnprunedShift(paths: seq<Path>, from: nat, excl: set<string>)
    requires forall p :: p in paths ==> |p| > from && p[from] !in excl
    ensures KeepUnpruned(paths, from, excl) == KeepUnpruned(paths, from + 1, excl)
  {
    if paths != [] {
      KeepUnprunedShift(paths[1..], from, excl);
    }
  }

  /** Paths below an excluded directory at depth `from` are all dropped. */
  lemma {:induction false} KeepUnprunedNone(paths: seq<Path>, from: nat, excl: set<string>)
    requires forall p :: p in paths ==> |p| > from + 1 && p[from] in excl
    ensures KeepUnpruned(paths, from, excl) == []
  {
    if paths != [] {
      KeepUnprunedNone(paths[1..], from, excl);
    }
  }

  /** Every file below `d` lies strictly below `root`. */
  lemma {:induction false} AllFilesShape(d: Dir, root: Path)
    ensures forall p :: p in AllFiles(d, root) ==> |p| > |root| && p[..|root|] == root
    decreases d, |d.subdirs| + 1
  {
    AllFilesEachShape(d, d.subdirs, root);
    forall p | p in FilesAt(root, d.files) ensures |p| > |root| && p[..|root|] == root {
      var k :| 0 <= k < |d.files| && FilesAt(root, d.files)[k] == p;
    }
  }

  lemma {:induction false} AllFilesEachShape(parent: Dir, subs: seq<Subdir>, root: Path)
    requires forall s :: s in subs ==> s in parent.subdirs
    ensures forall p :: p in AllFilesEach(parent, subs, root) ==> |p| > |root| + 1 && p[..|root|] == root
    decreases parent, |subs|
  {
    if subs != [] {
      var s := subs[0];
      SubdirSmaller(s, parent);
      AllFilesShape(s.tree, root + [s.name]);
      AllFilesEachShape(parent, subs[1..], root);
      forall p | p in AllFiles(s.tree, root + [s.name]) ensures |p| > |root| + 1 && p[..|root|] == root {
        assert p[..|root| + 1][..|root|] == p[..|root|];
      }
    }
  }

  /** The pruned walk reaches exactly the files of the unpruned tree that lie
      in no excluded directory, in the same order. */
  lemma {:induction false} WalkPrunesExcluded(d: Dir, root: Path, excl: set<string>)
    ensures FlatPaths(Walk(d, root, excl)) == KeepUnpruned(AllFiles(d, root), |root|, excl)
    decreases d, |d.subdirs| + 1
  {
    var here := FilesAt(root, d.files);
    var rest := WalkEach(d, Prune(d.subdirs, excl), root, excl);
    assert FlatPaths([(root, d.files)]) == here by {
      assert [(root, d.files)][..0] == [];
    }
    FlatPathsAppend([(root, d.files)], rest);
    KeepUnprunedAppend(here, AllFilesEach(d, d.subdirs, root), |root|, excl);
    assert KeepUnpruned(here, |root|, excl) == here by {
      KeepShallow(root, d.files, excl);
    }
    WalkEachPrunesExcluded(d, d.subdirs, root, excl);
  }

  lemma {:induction false} KeepShallow(root: Path, files: seq<string>, excl: set<string>)
    ensures KeepUnpruned(FilesAt(root, files), |root|, excl) == FilesAt(root, files)
  {
    var fs := FilesAt(root, files);
    KeepAllWhen(fs, |root|, excl);
  }

  lemma {:induction false} KeepAllWhen(paths: seq<Path>, from: nat, excl: set<string>)
    requires forall k :: 0 <= k < |paths| ==> NotPruned(paths[k], from, excl)
    ensures KeepUnpruned(paths, from, excl) == paths
  {
    if paths != [] {
      KeepAllWhen(paths[1..], from, excl);
    }
  }

  lemma {:induction false} WalkEachPrunesExcluded(parent: Dir, subs: seq<Subdir>, root: Path, excl: set<string>)
    requires forall s :: s in subs ==> s in parent.subdirs
    ensures FlatPaths(WalkEach(parent, Prune(subs, excl), root, excl))
            == KeepUnpruned(AllFilesEach(parent, subs, root), |root|, excl)
    decreases parent, |subs|
  {
    if subs != [] {
      var s := subs[0];
      SubdirSmaller(s, parent);
      var sub := AllFiles(s.tree, root + [s.name]);
      var others := AllFilesEach(parent, subs[1..], root);
      WalkEachPrunesExcluded(parent, subs[1..], root, excl);
      KeepUnprunedAppend(sub, others, |root|, excl);
      AllFilesShape(s.tree, root + [s.name]);
      assert forall p :: p in sub ==> p[|root|] == s.name by {
        forall p | p in sub ensures p[|root|] == s.name {
          assert p[..|root| + 1][|root|] == p[|root|];
        }
      }
      if s.name in excl {
        KeepUnprunedNone(sub, |root|, excl);
      } else {
        var kept := Prune(subs, excl);
        assert kept[1..] == Prune(subs[1..], excl);
        WalkPrunesExcluded(s.tree, root + [s.name], excl);
        FlatPathsAppend(Walk(s.tree, root + [s.name], excl), WalkEach(parent, Prune(subs[1..], excl), root, excl));
        KeepUnprunedShift(sub, |root|, excl);
      }
    }
  }

  // -------------------------------------------------------------- selection

  /** The final dot-separated part of a file name (`PurePath.suffix`): taken
      from the last dot on, unless that dot is the first or the last character. */
  function Suffix(name: string): (r: string)
    ensures r != "" ==> 2 <= |r| < |name| && r == name[|name| - |r|..] && r[0] == '.'
                        && forall k :: 1 <= k < |r| ==> r[k] != '.'
    ensures r == "" <==> (name != "" && name[|name| - 1] == '.') || (forall k :: 0 < k < |name| ==> name[k] != '.')
  {
    var i := RFind(name, '.');
    if 0 < i < |name| - 1 then name[i..] else ""
  }

  /** `s.rfind(c)`: the last index of `c` in `s`, or -1. */
  function RFind(s: string, c: char): (i: int)
    ensures -1 <= i < |s|
    ensures i >= 0 ==> s[i] == c
    ensures forall k :: i < k < |s| ==> s[k] != c
  {
    if s == [] then -1
    else if s[|s| - 1] == c then |s| - 1
    else RFind(s[..|s| - 1], c)
  }

  /** The tests on a file name: not excluded, and a target or empty suffix. */
  predicate Selected(name: string) {
    name !in ExcludeFiles && (Suffix(name) in TargetExtensions || Suffix(name) == "")
  }

  function Name(p: Path): string {
    if p == [] then "" else p[|p| - 1]
  }

  /** The paths whose names pass the tests, in order. */
  function SelectFiles(paths: seq<Path>): (r: seq<Path>)
    ensures forall p :: p in r <==> p in paths && Selected(Name(p))
  {
    if paths == [] then []
    else
      var prev := SelectFiles(paths[..|paths| - 1]);
      var p := paths[|paths| - 1];
      assert forall q :: q in paths <==> q in paths[..|paths| - 1] || q == p by {
        assert paths == paths[..|paths| - 1] + [p];
      }
      if Selected(Name(p)) then prev + [p] else prev
  }

  /** The files main hands to `replace_in_file`, in walk order. */
  function Processed(tree: Dir): seq<Path> {
    SelectFiles(FlatPaths(Walk(tree, [], ExcludeDirs)))
  }

  /** A file is processed exactly when it is in the tree, no directory on its
      path is excluded, its name is not excluded and its suffix is a target or empty. */
  lemma ProcessedIff(tree: Dir, p: Path)
    ensures p in Processed(tree) <==>
              && p in AllFiles(tree, [])
              && |p| >= 1
              && (forall i :: 0 <= i < |p| - 1 ==> p[i] !in ExcludeDirs)
              && p[|p| - 1] !in ExcludeFiles
              && (Suffix(p[|p| - 1]) in TargetExtensions || Suffix(p[|p| - 1]) == "")
  {
    WalkPrunesExcluded(tree, [], ExcludeDirs);
    AllFilesShape(tree, []);
  }

  /** Visiting a tree whose paths are unique visits each file once. */
  lemma ProcessedDistinct(tree: Dir)
    requires Distinct(AllFiles(tree, []))
    ensures Distinct(Processed(tree))
  {
    WalkPrunesExcluded(tree, [], ExcludeDirs);
    SubsequenceDistinct(AllFiles(tree, []), 0, ExcludeDirs);
    SelectDistinct(FlatPaths(Walk(tree, [], ExcludeDirs)));
  }

  lemma {:induction false} SubsequenceDistinct(paths: seq<Path>, from: nat, excl: set<string>)
    requires Distinct(paths)
    ensures Distinct(KeepUnpruned(paths, from, excl))
  {
    if paths != [] {
      DistinctTail(paths);
      SubsequenceDistinct(paths[1..], from, excl);
    }
  }

  lemma {:induction false} SelectDistinct(paths: seq<Path>)
    requires Distinct(paths)
    ensures Distinct(SelectFiles(paths))
  {
    if paths != [] {
      DistinctInit(paths);
      SelectDistinct(paths[..|paths| - 1]);
    }
  }

  // ------------------------------------------------------------------- main

  /** Blank answers give substitutions that rewrite nothing. */
  lemma AcceptingDefaultsChangesNothing(contents: map<Path, string>, paths: seq<Path>, faults: Faults,
                                        org: string, title: string, package: string)
    requires Blank(org) && Blank(title) && Blank(package)
    ensures RewriteAll(contents, paths,
                       ReplacementsFor(GetInputWithDefault(org, DefaultOrg),
                                       GetInputWithDefault(title, DefaultTitle),
                                       GetInputWithDefault(package, DefaultPackage)), faults)
            == (contents, [])
  {
    assert GetInputWithDefault(org, DefaultOrg) == DefaultOrg;
    assert GetInputWithDefault(title, DefaultTitle) == DefaultTitle;
    assert GetInputWithDefault(package, DefaultPackage) == DefaultPackage;
    var reps := ReplacementsFor(DefaultOrg, DefaultTitle, DefaultPackage);
    assert forall i :: 0 <= i < |reps| ==> reps[i].0 == reps[i].1;
    RewriteAllIdentity(contents, paths, reps, faults);
  }

  /** How a run ends: cancelled at the confirmation, or completed with the reported files. */
  datatype RunResult = Cancelled | Completed(modified: seq<Path>)

  /** The repository's files as the script sees them. */
  class Repo {
    var contents: map<Path, string>
    const faults: Faults

    constructor (contents: map<Path, string>, faults: Faults)
      ensures this.contents == contents && this.faults == faults
    {
      this.contents := contents;
      this.faults := faults;
    }

    /** `replace_in_file`: apply the substitutions in order; write the file and
        report true only when the text changed and both read and write succeed. */
    method ReplaceInFile(path: Path, reps: Replacements) returns (changed: bool)
      modifies this
      ensures changed == Rewrites(old(contents), path, reps, faults)
      ensures contents == if changed then old(contents)[path := ApplyAll(old(contents)[path], reps)]
                          else old(contents)
    {
      if path !in contents || path in faults.unreadable {
        return false;
      }
      var content := contents[path];
      var original := content;
      for i := 0 to |reps|
        invariant content == ApplyAll(original, reps[..i])
      {
        assert reps[..i + 1][..i] == reps[..i];
        content := Replace(content, reps[i].0, reps[i].1);
      }
      assert reps[..|reps|] == reps;
      if content != original {
        if path in faults.unwritable {
          return false;
        }
        contents := contents[path := content];
        return true;
      }
      return false;
    }
  }

  /** The inner loop of main's walk, for one directory `root` and its file
      names: skip excluded names, keep target or empty suffixes, run
      `replace_in_file` on each kept file and collect those it reports true for. */
  method RewriteFiles(repo: Repo, root: Path, files: seq<string>, reps: Replacements) returns (modified: seq<Path>)
    modifies repo
    ensures (repo.contents, modified) == RewriteAll(old(repo.contents), SelectFiles(FilesAt(root, files)), reps, repo.faults)
  {
    ghost var c0 := repo.contents;
    ghost var processed: seq<Path> := [];
    modified := [];
    for j := 0 to |files|
      invariant processed == SelectFiles(FilesAt(root, files[..j]))
      invariant repo.contents == RewriteAll(c0, processed, reps, repo.faults).0
      invariant modified == RewriteAll(c0, processed, reps, repo.faults).1
    {
      var file := files[j];
      var path := root + [file];
      assert files[..j + 1][..j] == files[..j];
      assert FilesAt(root, files[..j + 1]) == FilesAt(root, files[..j]) + [path];
      SelectFilesSnoc(FilesAt(root, files[..j]), path);
      if file in ExcludeFiles {
        continue;
      }
      var suffix := Suffix(file);
      if suffix in TargetExtensions || suffix == "" {
        ghost var prev := RewriteAll(c0, processed, reps, repo.faults);
        RewriteAllSnoc(c0, processed, path, reps, repo.faults);
        processed := processed + [path];
        var changed := repo.ReplaceInFile(path, reps);
        assert changed == Rewrites(prev.0, path, reps, repo.faults);
        if changed {
          modified := modified + [path];
        }
      }
    }
    assert files[..|files|] == files;
  }

  /** The walk of main: `os.walk` with the excluded directories pruned, and
      the inner loop for the files of each directory it yields. */
  method RewriteTree(repo: Repo, tree: Dir, reps: Replacements) returns (modified: seq<Path>)
    modifies repo
    ensures (repo.contents, modified) == RewriteAll(old(repo.contents), Processed(tree), reps, repo.faults)
  {
    ghost var c0 := repo.contents;
    var walk := Walk(tree, [], ExcludeDirs);
    modified := [];
    ghost var processed: seq<Path> := [];

    for i := 0 to |walk|
      invariant processed == SelectFiles(FlatPaths(walk[..i]))
      invariant repo.contents == RewriteAll(c0, processed, reps, repo.faults).0
      invariant modified == RewriteAll(c0, processed, reps, repo.faults).1
    {
      var (root, files) := walk[i];
      assert walk[..i + 1][..i] == walk[..i];
      ghost var here := SelectFiles(FilesAt(root, files));
      SelectFilesAppend(FlatPaths(walk[..i]), FilesAt(root, files));
      RewriteAllAppend(c0, processed, here, reps, repo.faults);
      var changed := RewriteFiles(repo, root, files, reps);
      processed := processed + here;
      modified := modified + changed;
    }
    assert walk[..|walk|] == walk;
  }

  lemma SelectFilesSnoc(paths: seq<Path>, p: Path)
    ensures SelectFiles(paths + [p]) == if Selected(Name(p)) then SelectFiles(paths) + [p] else SelectFiles(paths)
  {
    assert (paths + [p])[..|paths|] == paths;
  }

  lemma {:induction false} SelectFilesAppend(a: seq<Path>, b: seq<Path>)
    ensures SelectFiles(a + b) == SelectFiles(a) + SelectFiles(b)
    decreases |b|
  {
    if b == [] {
      assert a + b == a;
    } else {
      var b' := b[..|b| - 1];
      assert (a + b)[..|a + b| - 1] == a + b';
      SelectFilesAppend(a, b');
    }
  }

  lemma RewriteAllSnoc(contents: map<Path, string>, paths: seq<Path>, p: Path, reps: Replacements, faults: Faults)
    ensures var prev := RewriteAll(contents, paths, reps, faults);
            RewriteAll(contents, paths + [p], reps, faults)
            == if Rewrites(prev.0, p, reps, faults) then (prev.0[p := ApplyAll(prev.0[p], reps)], prev.1 + [p]) else prev
  {
    assert (paths + [p])[..|paths|] == paths;
  }

  /** Running over `a + b` is running over `a`, then over `b` from where `a` left the files. */
  lemma {:induction false} RewriteAllAppend(contents: map<Path, string>, a: seq<Path>, b: seq<Path>, reps: Replacements, faults: Faults)
    ensures var first := RewriteAll(contents, a, reps, faults);
            var second := RewriteAll(first.0, b, reps, faults);
            RewriteAll(contents, a + b, reps, faults) == (second.0, first.1 + second.1)
    decreases |b|
  {
    if b == [] {
      assert a + b == a;
      assert RewriteAll(contents, a, reps, faults).1 + [] == RewriteAll(contents, a, reps, faults).1;
    } else {
      var b' := b[..|b| - 1];
      var p := b[|b| - 1];
      assert (a + b)[..|a + b| - 1] == a + b' && (a + b)[|a + b| - 1] == p;
      RewriteAllAppend(contents, a, b', reps, faults);
      var first := RewriteAll(contents, a, reps, faults);
      var mid := RewriteAll(first.0, b', reps, faults);
      if Rewrites(mid.0, p, reps, faults) {
        assert first.1 + (mid.1 + [p]) == (first.1 + mid.1) + [p];
      }
    }
  }

  /** The script's main routine after its banner: three prompts, the
      confirmation, then the walk that rewrites every processed file. */
  method RenameRepository(repo: Repo, tree: Dir, orgAnswer: string, titleAnswer: string,
                          packageAnswer: string, confirmAnswer: string) returns (result: RunResult)
    modifies repo
    ensures !Confirmed(confirmAnswer) ==> result == Cancelled && repo.contents == old(repo.contents)
    ensures Confirmed(confirmAnswer) ==>
              var reps := ReplacementsFor(GetInputWithDefault(orgAnswer, DefaultOrg),
                                          GetInputWithDefault(titleAnswer, DefaultTitle),
                                          GetInputWithDefault(packageAnswer, DefaultPackage));
              var run := RewriteAll(old(repo.contents), Processed(tree), reps, repo.faults);
              result == Completed(run.1) && repo.contents == run.0
    ensures Blank(orgAnswer) && Blank(titleAnswer) && Blank(packageAnswer) ==>
              repo.contents == old(repo.contents) && (result == Cancelled || result == Completed([]))
  {
    var newOrg := GetInputWithDefault(orgAnswer, DefaultOrg);
    var newTitle := GetInputWithDefault(titleAnswer, DefaultTitle);
    var newPackage := GetInputWithDefault(packageAnswer, DefaultPackage);

    if !Confirmed(confirmAnswer) {
      return Cancelled;
    }

    var reps := ReplacementsFor(newOrg, newTitle, newPackage);
    if Blank(orgAnswer) && Blank(titleAnswer) && Blank(packageAnswer) {
      AcceptingDefaultsChangesNothing(repo.contents, Processed(tree), repo.faults, orgAnswer, titleAnswer, packageAnswer);
    }
    var modified := RewriteTree(repo, tree, reps);
    return Completed(modified);
  }
}
