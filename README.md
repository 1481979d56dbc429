# docusaurus-template core, modelled in Dafny

This project models the parts of the docusaurus-template repository that
compute or change something:

- **The rename script** (`rename_package.py`). It prompts for a new
  organization, title and package name, each falling back to its default
  when the answer is blank. It asks for a `y` confirmation. It then walks
  the repository with `os.walk`, pruning excluded directories. It runs
  `replace_in_file` on every file whose name is not excluded and whose
  suffix is a target extension or empty, and collects the files it rewrote.
  - The three Python `str` methods it relies on are modelled in module
    `PyStr`: `strip()` and `replace()` as Python defines them, `lower()` for
    ASCII letters only.
  - The repository is a `Dir` tree of names plus a `Repo` object that maps
    each file's path to its text.
  - Files whose read or write raises are given as sets in `Faults`.
- **The site configuration** (`packages/docusaurus/docusaurus.config.ts`),
  modelled in module `SiteConfig`. It covers the navbar filter, which drops
  a doc-sidebar link whose sidebar is not defined, and the docs directory,
  which is `OPS_FRONTIER_DOCS_PATH || "docs"`.
- **The launcher** (`packages/docusaurus/run-cli.mjs`), modelled in module
  `Launcher`. It derives the project root and the docs folder and refuses
  to run without the docs folder. On `build` or `start` it stages the
  packaged template archive into `.docusaurus-template` unless that
  directory exists. It then changes into that directory, defaults
  `BABEL_ENV` and `NODE_ENV` to `development`, and hands
  `["docusaurus", ...argv[1:]]` to the framework's CLI.
  - The host is a `Host` object holding the environment, the working
    directory and the set of existing paths.
  - Creating a directory, extracting the archive and running the CLI are
    opaque steps whose results arrive in an `Io` value.

Each imperative routine is a method proved against a specification
function:

- `ReplaceInFile` against `Rewrites` and `ApplyAll`.
- The two walk loops against `RewriteAll` over `Processed`.
- `EnsureStaged` against `Staged`.
- `Launch` against `Run`.

The properties the scripts promise are lemmas about those functions. The
launcher's staging is shown to be skipped whenever the staging directory
exists. One consequence is that a staging which failed after creating the
directory is never retried (`Launcher.StagedFailureNotRetried`). The
launcher's own message for an existing directory (run-cli.mjs lines 52-54)
covers this: it tells the user to delete the directory to reinitialize.

## Model

| member | source | states |
|---|---|---|
| PyStr.Strip | rename_package.py:23 | the stripped answer is the infix of the input left after cutting only whitespace off both ends, and it neither starts nor ends with whitespace, which fixes it uniquely; it is empty exactly when every character is whitespace |
| PyStr.StripIdempotent | rename_package.py:23 | stripping an already stripped answer changes nothing |
| PyStr.Lower | rename_package.py:91 | lower-casing keeps the length and maps each character on its own (ASCII letters to lower case, everything else unchanged) |
| PyStr.InsertEverywhere | rename_package.py:46 | `replace` with an empty pattern has the length of the text plus one copy of the replacement per character and one more |
| PyStr.InsertEverywhereSep | rename_package.py:46 | `replace` with an empty pattern puts a copy of the replacement at every slot `k * (len(replacement) + 1)`, one for each of the text's length plus one slots |
| PyStr.InsertEverywhereChar | rename_package.py:46 | `replace` with an empty pattern puts the text's `k`-th character right after the `k`-th copy of the replacement, so the characters keep their order |
| PyStr.InsertEverywhereSnoc | rename_package.py:46 | appending a character to the text appends that character and one more copy of the replacement to the result |
| PyStr.Replace | rename_package.py:46 | `str.replace`: every non-overlapping occurrence of the pattern, found left to right, is replaced; `ReplaceFirst` and `ReplaceAbsent` below fix the result; its other properties are the lemmas below |
| PyStr.Count | rename_package.py:46 | the number of occurrences `replace` rewrites, at most the text's length over the pattern's length |
| PyStr.ReplaceSelf | rename_package.py:46 | replacing a pattern by itself leaves any text unchanged |
| PyStr.ReplaceAbsent | rename_package.py:46 | a text that does not contain a non-empty pattern is returned unchanged by `replace` |
| PyStr.ReplaceFirst | rename_package.py:46 | `replace` with a non-empty pattern keeps the text before the pattern's leftmost occurrence, puts the replacement in its place and carries on after it; with `ReplaceAbsent` this fixes the result as the non-overlapping occurrences found left to right |
| PyStr.ReplaceFirstFrom | rename_package.py:46 | the same for the rest of the text from any position up to the next occurrence: the characters scanned past are kept in order |
| PyStr.CountZeroIff | rename_package.py:46 | the number of non-overlapping occurrences `replace` rewrites is zero exactly when the pattern does not occur |
| PyStr.ReplaceLength | rename_package.py:46 | each rewritten occurrence trades the pattern's length for the replacement's |
| RenamePackage.GetInputWithDefault | rename_package.py:19-24 | a blank answer yields the default; any other answer yields its stripped form, which is non-empty and has no outer whitespace; a non-empty default is never replaced by an empty value |
| RenamePackage.Confirmed | rename_package.py:91-94 | the run goes ahead exactly when the stripped answer is `y` or `Y` |
| RenamePackage.ReplacementsFor | rename_package.py:104-108 | three substitutions, keyed in order by the default organization, title and package |
| RenamePackage.ApplyAll | rename_package.py:45-46 | the text after every pair's `replace` in turn; characterised by ApplyAllSequential and ApplyAllIdentity |
| RenamePackage.ApplyAllSequential | rename_package.py:45-46 | the substitutions act one after another, each on the previous one's output |
| RenamePackage.ApplyAllIdentity | rename_package.py:45-46 | substitutions that map every key to itself leave the text as it was |
| RenamePackage.Rewrites | rename_package.py:38-54 | whether `replace_in_file` writes the file and returns true: it exists, reading and writing raise nothing, and the substitutions change its text |
| RenamePackage.Repo.ReplaceInFile | rename_package.py:27-57 | reports true exactly when the file exists, can be read and written, and the substitutions change its text; then the file holds the substituted text, otherwise nothing changes |
| RenamePackage.RewriteAll | rename_package.py:123-146 | visiting files creates or deletes none and reports at most one file per visit |
| RenamePackage.RewriteAllIdentity | rename_package.py:123-146 | with substitutions that change nothing, no file is rewritten and none is reported |
| RenamePackage.RewriteAllFrame | rename_package.py:123-146 | a file that is not visited keeps its text |
| RenamePackage.RewriteAllAppend | rename_package.py:123-146 | visiting `a + b` is visiting `a`, then visiting `b` from the files `a` left, with the reports concatenated |
| RenamePackage.ChangedFiles | rename_package.py:140-142 | a file is listed exactly when it is visited and `replace_in_file` would rewrite it in the original tree |
| RenamePackage.RewriteAllDistinct | rename_package.py:123-146 | when no file is visited twice, the reported files are exactly the visited files whose text the substitutions change, in visiting order; each holds the substituted text and every other file keeps its text |
| RenamePackage.Prune | rename_package.py:128 | a subdirectory is kept exactly when its name is not excluded |
| RenamePackage.FilesAt | rename_package.py:135 | the path of each file is its directory's path followed by its name, one per name, in order |
| RenamePackage.Walk | rename_package.py:126-128 | the `(root, files)` pairs of a top-down `os.walk` whose subdirectory list is pruned at each step; WalkPrunesExcluded relates it to the unpruned tree |
| RenamePackage.WalkEach | rename_package.py:126-128 | the walks of the kept subdirectories, one after another in listing order |
| RenamePackage.AllFiles | rename_package.py:126 | every file of the tree in top-down walk order with nothing pruned, the reference the pruned walk is compared with |
| RenamePackage.KeepUnpruned | rename_package.py:126-128 | a path is kept exactly when no directory on it, from the given depth on, is excluded |
| RenamePackage.WalkPrunesExcluded | rename_package.py:126-128 | the pruned walk reaches exactly the files of the whole tree that lie in no excluded directory, in the same order |
| RenamePackage.Suffix | rename_package.py:138 | the suffix is the part from the last dot on, at least two characters and shorter than the name; it is empty exactly when the name ends with a dot or has no dot after its first character |
| RenamePackage.RFind | rename_package.py:138 | the index of the last dot in the name, or -1 when there is none |
| RenamePackage.Selected | rename_package.py:132-138 | the two tests on a file name: not an excluded file, and a target or empty suffix |
| RenamePackage.Processed | rename_package.py:126-138 | the files main hands to `replace_in_file`, in walk order; characterised by ProcessedIff |
| RenamePackage.SelectFiles | rename_package.py:130-138 | a path is kept exactly when its name is not an excluded file and its suffix is a target extension or empty |
| RenamePackage.ProcessedIff | rename_package.py:111-138 | a file is handed to `replace_in_file` exactly when it is in the tree, no directory on its path is excluded, its name is not excluded and its suffix is a target or empty |
| RenamePackage.ProcessedDistinct | rename_package.py:126-140 | in a tree whose paths are unique, no file is processed twice |
| RenamePackage.AcceptingDefaultsChangesNothing | rename_package.py:104-108 | when all three answers are blank, the substitutions map each default to itself, so no file is rewritten or reported |
| RenamePackage.RewriteFiles | rename_package.py:130-146 | the loop over one directory's files leaves the files and the reports that visiting its selected files in order gives |
| RenamePackage.RewriteTree | rename_package.py:126-146 | the walk leaves the files and the reports that visiting every processed file in walk order gives |
| RenamePackage.RenameRepository | rename_package.py:76-146 | without confirmation nothing changes; with it, the files and the reported list are those of the walk with the three answers' substitutions; blank answers change no file |
| SiteConfig.Keep | packages/docusaurus/docusaurus.config.ts:33-38 | the filter callback: a sidebar link passes only when its sidebar is defined, any other item always passes |
| SiteConfig.FilterItems | packages/docusaurus/docusaurus.config.ts:33-38 | the filtered navbar is no longer than the original and holds only original items the callback keeps |
| SiteConfig.FilterMembership | packages/docusaurus/docusaurus.config.ts:33-38 | an item survives exactly when it is in the navbar and is either not a sidebar link or names a defined sidebar |
| SiteConfig.FilterAppend | packages/docusaurus/docusaurus.config.ts:33-38 | filtering two lists joined together is filtering each and joining the results, since the callback looks at one item at a time |
| SiteConfig.FilterCounts | packages/docusaurus/docusaurus.config.ts:33-38 | nothing is deduplicated: every copy of an item the callback keeps survives, and no copy of one it drops |
| SiteConfig.FilterIsSubsequence | packages/docusaurus/docusaurus.config.ts:33-38 | the filter keeps the original order and duplicates nothing |
| SiteConfig.FilterIdempotent | packages/docusaurus/docusaurus.config.ts:33-38 | filtering again with the same sidebars changes nothing |
| SiteConfig.FilterKeepsAllIff | packages/docusaurus/docusaurus.config.ts:33-38 | nothing is dropped exactly when every item passes the callback |
| SiteConfig.NavbarCompleteIff | packages/docusaurus/docusaurus.config.ts:9-38 | the configured navbar keeps all three items exactly when both the `reference` and the `release` sidebars are defined |
| SiteConfig.NavbarWithoutSidebars | packages/docusaurus/docusaurus.config.ts:9-38 | with no sidebars only the GitHub link remains |
| SiteConfig.EnvOr | packages/docusaurus/docusaurus.config.ts:82 | `env[key] \|\| fallback`: the variable's value unless it is unset or empty, in which case the fallback |
| SiteConfig.DocsPath | packages/docusaurus/docusaurus.config.ts:82 | the docs directory is `OPS_FRONTIER_DOCS_PATH` when set and non-empty, otherwise `docs`, and never empty |
| Launcher.ProjectRoot | packages/docusaurus/run-cli.mjs:17 | the project root is `OPS_FRONTIER_PROJECT_ROOT` when set and non-empty, otherwise the working directory |
| Launcher.StagingPath | packages/docusaurus/run-cli.mjs:18 | the staging directory is the project root followed by `/.docusaurus-template` |
| Launcher.DocsDir | packages/docusaurus/run-cli.mjs:19 | the docs folder is the project root followed by `/docs` |
| Launcher.ArchivePath | packages/docusaurus/run-cli.mjs:36 | the archive is `docusaurus-template.zip` beside the launcher script |
| Launcher.StagingCommand | packages/docusaurus/run-cli.mjs:30 | staging is considered only when a command is given and it is `build` or `start` |
| Launcher.ForwardedArgs | packages/docusaurus/run-cli.mjs:58 | the CLI receives `docusaurus` followed by every argument after the interpreter, in order |
| Launcher.DefaultTo | packages/docusaurus/run-cli.mjs:71-72 | `??=` adds the variable with the default only when it is unset and changes no other variable |
| Launcher.DevDefaults | packages/docusaurus/run-cli.mjs:71-72 | `BABEL_ENV` and then `NODE_ENV` defaulted to `development` |
| Launcher.DevDefaultsIdempotent | packages/docusaurus/run-cli.mjs:71-72 | applying the development defaults again changes nothing |
| Launcher.Staged | packages/docusaurus/run-cli.mjs:32-55 | the paths that exist after staging and the failure, if any, in the order of the source's checks; characterised by the Staged lemmas below |
| Launcher.StagedOnlyAdds | packages/docusaurus/run-cli.mjs:32-50 | staging only adds paths: the staging directory and what the archive wrote |
| Launcher.StagedSkipsExisting | packages/docusaurus/run-cli.mjs:32-55 | an existing staging directory is left as it is and staging reports success |
| Launcher.StagedKeepsDirectory | packages/docusaurus/run-cli.mjs:33-50 | once created, the staging directory stays even when the archive is missing or extraction fails |
| Launcher.StagedSucceedsIff | packages/docusaurus/run-cli.mjs:32-50 | staging succeeds exactly when the directory exists, or it is created, the archive is found and extraction completes |
| Launcher.StagedTwice | packages/docusaurus/run-cli.mjs:32-55 | staging again after a successful staging changes nothing |
| Launcher.StagedFailureNotRetried | packages/docusaurus/run-cli.mjs:32-55 | after a failure that left the directory, the next staging reports success without extracting |
| Launcher.HandleError | packages/docusaurus/run-cli.mjs:77-88 | whatever the error, the launcher ends with status 1, the error being the reason recorded |
| Launcher.Host.EnsureStaged | packages/docusaurus/run-cli.mjs:30-56 | the paths that exist afterwards and the failure are those `Staged` gives for the old paths |
| Launcher.Host.Launch | packages/docusaurus/run-cli.mjs:17-98 | the outcome and the new environment, working directory and paths are those `Run` gives for the old state |
| Launcher.Run | packages/docusaurus/run-cli.mjs:17-98 | the outcome and the state one run leaves, case by case in the order of the checks; characterised by the Run lemmas below |
| Launcher.RunExitsWithOne | packages/docusaurus/run-cli.mjs:21-98 | every exit of the launcher itself has status 1 |
| Launcher.RunNoDocs | packages/docusaurus/run-cli.mjs:17-24 | without the docs folder the run exits with status 1 before any mkdir, extraction or chdir: the paths and the working directory are as they were and only the docs path variable is set |
| Launcher.RunNoCommand | packages/docusaurus/run-cli.mjs:21-29 | with the docs folder but fewer than three arguments the run exits with status 1 with no staging and no chdir, and only the docs path variable is set |
| Launcher.RunTouchesFilesOnlyToStage | packages/docusaurus/run-cli.mjs:21-56 | the file system changes only for `build` or `start`, only when the docs folder exists and the staging directory does not |
| Launcher.RunKeepsExistingStaging | packages/docusaurus/run-cli.mjs:51-55 | a run that finds the staging directory leaves the file system as it was |
| Launcher.RunDelegatesIff | packages/docusaurus/run-cli.mjs:17-98 | the CLI is reached exactly when the docs folder exists, a command is given, the staging directory exists or is staged now, and the CLI succeeds; it then runs inside the staging directory with the forwarded arguments |
| Launcher.RunSetsDocsPath | packages/docusaurus/run-cli.mjs:17-19 | the site configuration reads the docs path the launcher set, the same string it checked for existence |
| Launcher.RunKeepsSetVariables | packages/docusaurus/run-cli.mjs:19-72 | apart from the docs path, no variable that was set is changed, so a caller's `BABEL_ENV` or `NODE_ENV` wins |

## Left out

- Console output is not modelled: the banners, the progress and error lines of the rename script, and the launcher's logger calls.
- Reading answers is not modelled: the prompts become the typed lines as parameters, and end of input (`EOFError`) is not modelled.
- PyStr.Lower: maps only `A`-`Z`, while Python's `lower()` also maps non-ASCII letters. This does not affect the confirmation: only `Y` lower-cases to `y`.
- The directory tree is a finite tree of names. `os.walk`'s handling of symbolic links and of listing errors, and the file system's listing order, are not modelled; the order in the tree is the order the walk sees.
- File contents are `seq<char>`. The UTF-8 decode is not modelled: a file that fails to decode belongs to `Faults.unreadable`, like a missing or unreadable file.
- RenamePackage.Repo.ReplaceInFile: a write that raises after `open(..., 'w')` has truncated the file leaves it truncated in the source; the model leaves the file as it was.
- RenamePackage.Repo.ReplaceInFile: a file's text in `contents` is the text after Python's text-mode newline translation (`\r\n` and `\r` read as `\n`). The model does not show that a rewritten file is written back with `\n` endings, so a CRLF file that gets any substitution loses its CRLF endings.
- The `except` branch of main's loop (rename_package.py lines 144-146) is not modelled. `replace_in_file` catches its own exceptions. `relative_to` at line 141 cannot raise, because every path `os.walk(repo_root)` yields lies under `repo_root`. Only the `print` at line 143 runs after the append at line 142, so an exception there leaves `modified_files` as the model has it.
- RenamePackage.Suffix: follows `PurePath.suffix` as it is up to Python 3.13. From Python 3.14 a trailing single dot counts as the suffix `.`, so a name such as `notes.` would be skipped there rather than processed.
- Paths are relative to the repository root. `Path(__file__).parent` and `relative_to` are therefore not modelled separately.
- The rest of the site configuration is not modelled: the static config object, the theme, and the `sidebars` module, whose keys are a parameter.
- `packages/docusaurus/src/pages/index.tsx` and the date handling are not part of this model.
- The archive's format and contents are not modelled: extraction is an opaque `Extracted(entries)` or `Interrupted(partial)`.
- The internals of `beforeCli` and `runCLI` are not modelled: the CLI either succeeds (`Delegated`) or fails and goes through `handleError`.
- The `unhandledRejection` listener is not modelled. An unhandled rejection inside the CLI ends the same way as a caught failure.
- The file system is the set of existing paths. `existsSync` is membership. A `mkdirSync` that throws ends the run with status 1 (`MkdirError`). `process.chdir` succeeds exactly when the staging path exists; a staging path that is a file is not distinguished.
- Path joining is string concatenation with `/`; `path.join`'s normalisation is not modelled.
- Launcher.RunSetsDocsPath: paths are compared as strings and never resolved against the working directory. With a relative `OPS_FRONTIER_PROJECT_ROOT` such as `proj`, the check at run-cli.mjs line 21 looks at `proj/docs` under the original working directory. After the `chdir` at line 61 the site resolves the same string under the staging directory, i.e. `proj/.docusaurus-template/proj/docs`. The model does not show that these are different folders.
- Concurrency is not modelled: the scripts are single-threaded, and another process changing the files at the same time is not considered.
