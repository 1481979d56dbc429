/**
 The command-line launcher: it derives the project paths from the
 environment, checks that the docs folder exists, stages the packaged
 template on the first `build` or `start`, moves into the staged directory,
 fills in development defaults and hands the arguments to the site
 framework's CLI.

 The host is a `Host` object: its environment, its working directory and
 the set of paths that exist. Creating a directory, extracting the archive
 and running the framework's CLI are opaque steps whose results arrive as
 an `Io` value.
 */
module Launcher {
  import SiteConfig

  datatype Option<T> = None | Some(value: T)

  const ProjectRootVar := "OPS_FRONTIER_PROJECT_ROOT"

  /** `OPS_FRONTIER_PROJECT_ROOT || process.cwd()`. */
  function ProjectRoot(env: map<string, string>, cwd: string): (root: string)
    ensures root == cwd || (ProjectRootVar in env && root == env[ProjectRootVar])
    ensures root == cwd <==> ProjectRootVar !in env || env[ProjectRootVar] in {"", cwd}
  {
    SiteConfig.EnvOr(env, ProjectRootVar, cwd)
  }

  /** Where the template is staged. */
  function StagingPath(root: string): string {
    root + "/.docusaurus-template"
  }

  /** The docs folder the site is built from. */
  function DocsDir(root: string): string {
    root + "/docs"
  }

  /** The archive shipped beside the launcher script. */
  function ArchivePath(scriptDir: string): string {
    scriptDir + "/docusaurus-template.zip"
  }

  /** The two commands that stage the template. */
  predicate StagingCommand(argv: seq<string>) {
    |argv| >= 3 && (argv[2] == "build" || argv[2] == "start")
  }

  /** `["docusaurus", ...argv.slice(1)]`: the program name replaces the
      interpreter, the script path and every later argument are kept. */
  function ForwardedArgs(argv: seq<string>): (args: seq<string>)
    ensures |args| == if argv == [] then 1 else |argv|
    ensures args[0] == "docusaurus"
    ensures forall k :: 1 <= k < |argv| ==> args[k] == argv[k]
  {
    if argv == [] then ["docusaurus"] else ["docusaurus"] + argv[1..]
  }

  /** `env[key] ??= value`: assigned only when the variable is unset. */
  function DefaultTo(env: map<string, string>, key: string, value: string): (r: map<string, string>)
    ensures r.Keys == env.Keys + {key}
    ensures forall k :: k in env ==> r[k] == env[k]
    ensures key !in env ==> r[key] == value
  {
    if key in env then env else env[key := value]
  }

  /** The two build-mode variables, defaulted to "development". */
  function DevDefaults(env: map<string, string>): map<string, string> {
    DefaultTo(DefaultTo(env, "BABEL_ENV", "development"), "NODE_ENV", "development")
  }

  /** Applying the defaults a second time changes nothing. */
  lemma DevDefaultsIdempotent(env: map<string, string>)
    ensures DevDefaults(DevDefaults(env)) == DevDefaults(env)
  {
  }

  /** What extracting the archive does: all entries written, or a failure
      after some of them. */
  datatype Extraction = Extracted(entries: set<string>) | Interrupted(partial: set<string>)

  /** The results of the opaque steps of one run. */
  datatype Io = Io(mkdirOk: bool, extraction: Extraction, cliOk: bool)

  /** Why the launcher exits with status 1. */
  datatype Failure = NoDocs | NoCommand | MkdirError | NoArchive | UnzipError | ChdirError | CliError

  /** How a run ends: an exit of the launcher itself, or the framework's CLI taking over. */
  datatype Outcome = Exit(code: int, failure: Failure) | Delegated(args: seq<string>)

  /** The paths that exist after staging at `staging` from `archive`, and the
      failure that ends the run, if any. */
  function Staged(existing: set<string>, staging: string, archive: string, io: Io): (set<string>, Option<Failure>) {
    if staging in existing then (existing, None)
    else if !io.mkdirOk then (existing, Some(MkdirError))
    else
      var made := existing + {staging};
      if archive !in made then (made, Some(NoArchive))
      else match io.extraction
        case Extracted(entries) => (made + entries, None)
        case Interrupted(partial) => (made + partial, Some(UnzipError))
  }

  /** Staging only ever adds paths: the staging directory and what the archive wrote. */
  lemma StagedOnlyAdds(existing: set<string>, staging: string, archive: string, io: Io)
    ensures var (fs, _) := Staged(existing, staging, archive, io);
            existing <= fs
            && fs - existing <= {staging} + (if io.extraction.Extracted? then io.extraction.entries else io.extraction.partial)
  {
  }

  /** An existing staging directory is left exactly as it is. */
  lemma StagedSkipsExisting(existing: set<string>, staging: string, archive: string, io: Io)
    requires staging in existing
    ensures Staged(existing, staging, archive, io) == (existing, None)
  {
  }

  /** Once the directory is created it stays, whether or not the archive is
      then found and extracted: nothing is rolled back. */
  lemma StagedKeepsDirectory(existing: set<string>, staging: string, archive: string, io: Io)
    requires io.mkdirOk
    ensures staging in Staged(existing, staging, archive, io).0
  {
  }

  /** Staging succeeds exactly when the directory is already there, or it is
      created, the archive is found and extraction completes. */
  lemma StagedSucceedsIff(existing: set<string>, staging: string, archive: string, io: Io)
    ensures Staged(existing, staging, archive, io).1 == None
            <==> staging in existing
                 || (io.mkdirOk && archive in existing + {staging} && io.extraction.Extracted?)
  {
  }

  /** Staging again after a successful staging changes nothing, whatever the
      opaque steps would do. */
  lemma StagedTwice(existing: set<string>, staging: string, archive: string, io: Io, io': Io)
    requires Staged(existing, staging, archive, io).1 == None
    ensures var fs := Staged(existing, staging, archive, io).0;
            Staged(fs, staging, archive, io') == (fs, None)
  {
    var fs := Staged(existing, staging, archive, io).0;
    assert staging in fs;
  }

  /** A staging that fails after creating the directory (archive missing, or
      extraction interrupted) is not retried: the next staging finds the
      directory and reports success without extracting anything. */
  lemma StagedFailureNotRetried(existing: set<string>, staging: string, archive: string, io: Io, io': Io)
    requires io.mkdirOk && Staged(existing, staging, archive, io).1.Some?
    ensures var fs := Staged(existing, staging, archive, io).0;
            Staged(fs, staging, archive, io') == (fs, None)
  {
    StagedKeepsDirectory(existing, staging, archive, io);
  }

  /** `handleError`: log the error and the versions, then exit with status 1.
      The error is stood for by the `Failure` it ends the run with; what is
      logged is not modelled. */
  method HandleError(failure: Failure) returns (outcome: Outcome)
    ensures outcome.Exit? && outcome.code == 1 && outcome.failure == failure
  {
    outcome := Exit(1, failure);
  }

  /** What the launcher can see of the machine: the environment, the working
      directory and the paths that exist. */
  datatype HostState = HostState(env: map<string, string>, cwd: string, existing: set<string>)

  /** One run of the launcher with the argument vector `argv` (interpreter,
      script, command, options) from a script in `scriptDir`: how it ends and
      the state it leaves, case by case in the order of the checks. */
  function Run(s: HostState, argv: seq<string>, scriptDir: string, io: Io): (Outcome, HostState) {
    var root := ProjectRoot(s.env, s.cwd);
    var staging := StagingPath(root);
    var env1 := s.env[SiteConfig.DocsPathVar := DocsDir(root)];
    if DocsDir(root) !in s.existing then (Exit(1, NoDocs), s.(env := env1))
    else if |argv| < 3 then (Exit(1, NoCommand), s.(env := env1))
    else
      var staged := if StagingCommand(argv) then Staged(s.existing, staging, ArchivePath(scriptDir), io)
                    else (s.existing, None);
      if staged.1.Some? then (Exit(1, staged.1.value), s.(env := env1, existing := staged.0))
      else if staging !in staged.0 then (Exit(1, ChdirError), s.(env := env1, existing := staged.0))
      else
        var s' := HostState(DevDefaults(env1), staging, staged.0);
        if io.cliOk then (Delegated(ForwardedArgs(argv)), s') else (Exit(1, CliError), s')
  }

  /** Every exit of the launcher itself has status 1. */
  lemma RunExitsWithOne(s: HostState, argv: seq<string>, scriptDir: string, io: Io)
    ensures var (outcome, _) := Run(s, argv, scriptDir, io);
            outcome.Exit? ==> outcome.code == 1
  {
  }

  /** Without the docs folder the launcher exits with status 1 before any
      mkdir, extraction or chdir; only the docs path variable is set. */
  lemma RunNoDocs(s: HostState, argv: seq<string>, scriptDir: string, io: Io)
    requires DocsDir(ProjectRoot(s.env, s.cwd)) !in s.existing
    ensures var (outcome, s') := Run(s, argv, scriptDir, io);
            outcome == Exit(1, NoDocs)
            && s'.cwd == s.cwd && s'.existing == s.existing
            && s'.env == s.env[SiteConfig.DocsPathVar := DocsDir(ProjectRoot(s.env, s.cwd))]
  {
  }

  /** With the docs folder but no command, the launcher prints its usage and
      exits with status 1, again before any mkdir, extraction or chdir. */
  lemma RunNoCommand(s: HostState, argv: seq<string>, scriptDir: string, io: Io)
    requires DocsDir(ProjectRoot(s.env, s.cwd)) in s.existing && |argv| < 3
    ensures var (outcome, s') := Run(s, argv, scriptDir, io);
            outcome == Exit(1, NoCommand)
            && s'.cwd == s.cwd && s'.existing == s.existing
            && s'.env == s.env[SiteConfig.DocsPathVar := DocsDir(ProjectRoot(s.env, s.cwd))]
  {
  }

  /** The file system changes only for `build` or `start`, only when the docs
      folder exists and the staging directory does not. */
  lemma RunTouchesFilesOnlyToStage(s: HostState, argv: seq<string>, scriptDir: string, io: Io)
    ensures var (_, s') := Run(s, argv, scriptDir, io);
            var root := ProjectRoot(s.env, s.cwd);
            s'.existing != s.existing ==>
              DocsDir(root) in s.existing && StagingCommand(argv) && StagingPath(root) !in s.existing
  {
  }

  /** A run that finds the staging directory leaves the file system as it
      was: the template is never extracted over an existing one. */
  lemma RunKeepsExistingStaging(s: HostState, argv: seq<string>, scriptDir: string, io: Io)
    requires StagingPath(ProjectRoot(s.env, s.cwd)) in s.existing
    ensures Run(s, argv, scriptDir, io).1.existing == s.existing
  {
  }

  /** The framework's CLI is reached exactly when the docs folder exists, a
      command is given, the staging directory exists or is staged now, and
      the CLI then succeeds; it runs inside the staged directory with the
      program name followed by every argument after the interpreter. */
  lemma RunDelegatesIff(s: HostState, argv: seq<string>, scriptDir: string, io: Io)
    ensures var (outcome, s') := Run(s, argv, scriptDir, io);
            var root := ProjectRoot(s.env, s.cwd);
            var staging := StagingPath(root);
            (outcome.Delegated? <==>
               DocsDir(root) in s.existing && |argv| >= 3 && io.cliOk
               && (staging in s.existing
                   || (StagingCommand(argv) && Staged(s.existing, staging, ArchivePath(scriptDir), io).1 == None)))
            && (outcome.Delegated? ==>
                  s'.cwd == staging && staging in s'.existing
                  && outcome.args == ForwardedArgs(argv) && |outcome.args| == |argv|)
  {
    var root := ProjectRoot(s.env, s.cwd);
    var staging := StagingPath(root);
    if StagingCommand(argv) && staging !in s.existing {
      StagedSucceedsIff(s.existing, staging, ArchivePath(scriptDir), io);
      if Staged(s.existing, staging, ArchivePath(scriptDir), io).1 == None {
        assert io.mkdirOk;
        StagedKeepsDirectory(s.existing, staging, ArchivePath(scriptDir), io);
      }
    }
  }

  /** The site configuration, reading the environment the launcher leaves,
      uses the docs folder the launcher checked. */
  lemma RunSetsDocsPath(s: HostState, argv: seq<string>, scriptDir: string, io: Io)
    ensures var (_, s') := Run(s, argv, scriptDir, io);
            SiteConfig.DocsPath(s'.env) == DocsDir(ProjectRoot(s.env, s.cwd))
  {
    var env1 := s.env[SiteConfig.DocsPathVar := DocsDir(ProjectRoot(s.env, s.cwd))];
    assert |"BABEL_ENV"| != |SiteConfig.DocsPathVar| && |"NODE_ENV"| != |SiteConfig.DocsPathVar|;
    assert DevDefaults(env1)[SiteConfig.DocsPathVar] == env1[SiteConfig.DocsPathVar];
  }

  /** Apart from the docs path, no variable that was set is changed: a
      `BABEL_ENV` or `NODE_ENV` given by the caller wins over the default. */
  lemma RunKeepsSetVariables(s: HostState, argv: seq<string>, scriptDir: string, io: Io, k: string)
    requires k in s.env && k != SiteConfig.DocsPathVar
    ensures var (_, s') := Run(s, argv, scriptDir, io);
            k in s'.env && s'.env[k] == s.env[k]
  {
  }

  /** The machine the launcher runs on, as far as the launcher can see it. */
  class Host {
    var env: map<string, string>
    var cwd: string
    var existing: set<string>

    constructor (env: map<string, string>, cwd: string, existing: set<string>)
      ensures this.env == env && this.cwd == cwd && this.existing == existing
    {
      this.env := env;
      this.cwd := cwd;
      this.existing := existing;
    }

    function State(): HostState
      reads this
    {
      HostState(env, cwd, existing)
    }

    /** Stage the template for `build` or `start`: when `staging` is absent,
        create it, then extract the archive into it if the archive exists. */
    method EnsureStaged(staging: string, archive: string, io: Io) returns (failure: Option<Failure>)
      modifies this`existing
      ensures (existing, failure) == Staged(old(existing), staging, archive, io)
    {
      if staging in existing {
        return None;
      }
      if !io.mkdirOk {
        return Some(MkdirError);
      }
      existing := existing + {staging};
      if archive !in existing {
        return Some(NoArchive);
      }
      match io.extraction {
        case Extracted(entries) =>
          existing := existing + entries;
          return None;
        case Interrupted(partial) =>
          existing := existing + partial;
          return Some(UnzipError);
      }
    }

    /** The launcher script, run with `argv` from a script in `scriptDir`. */
    method Launch(argv: seq<string>, scriptDir: string, io: Io) returns (outcome: Outcome)
      modifies this
      ensures (outcome, State()) == Run(old(State()), argv, scriptDir, io)
    {
      var root := ProjectRoot(env, cwd);
      var staging := StagingPath(root);
      var docs := DocsDir(root);
      env := env[SiteConfig.DocsPathVar := docs];

      if docs !in existing {
        return Exit(1, NoDocs);
      }
      if |argv| < 3 {
        return Exit(1, NoCommand);
      } else if argv[2] == "build" || argv[2] == "start" {
        var failure := EnsureStaged(staging, ArchivePath(scriptDir), io);
        if failure.Some? {
          return Exit(1, failure.value);
        }
      }

      var args := ForwardedArgs(argv);
      if staging !in existing {
        return Exit(1, ChdirError);
      }
      cwd := staging;

      env := DefaultTo(env, "BABEL_ENV", "development");
      env := DefaultTo(env, "NODE_ENV", "development");

      if io.cliOk {
        outcome := Delegated(args);
      } else {
        outcome := HandleError(CliError);
      }
    }
  }
}
