# deps-report, the Python decision core, in Dafny

deps-report reads a Python project's lock file and reports, for every
dependency:
- whether a newer version exists on the package indexes the lock file names;
- whether the installed version is covered by a safety-db advisory;
- whether the project's Python release cycle is outdated or near its end of
  life.

This project models the logic between the network fetches and the renderers,
with every fetch result taken as an input:

- **Version checkers.** Both checkers are modelled:
  - `PythonDependenciesVersionChecker` (module `DependenciesVersionChecker`);
  - the earlier `PythonVersionChecker` (module `VersionChecker`).

  Each reads the version out of every filename of a simple index page, in
  reversed listing order, and picks the latest. They then try the
  dependency's repositories in preference order. The filename helpers and the
  repository policy they share live in `SimpleIndex`.
- **Vulnerability checker** (`VulnerabilityChecker`). This is the
  `PythonVulnerabilityChecker` class. It holds the safety-db database
  downloaded once, or nothing, and reports the first advisory whose
  constraint contains the installed version.
- **Runtime checker** (`RuntimeVersionChecker`). It matches the declared
  Python version against the endoflife.date release cycles, newest first,
  and builds the `RuntimeInformations` record.
- **Per-dependency processing** (`Processing`). This is `process_dependency`:
  - the version check, then the vulnerability check;
  - which exceptions become error results and which escape.
- **Project report** (`Project`). This is the result partition of
  `_process_project` / `_process_project_json`:
  - one triple per dependency;
  - unzipped, with the error lists flattened and absent results dropped.
- **Lock file parsers.**
  - `Pipenv`:
    - the lock path;
    - the repository table, an insertion-ordered dict;
    - the repositories of each dependency;
    - the dependency list.
  - `Poetry`:
    - the file pairing;
    - the transitive flag;
    - the dependency list;
    - the runtime version.
- **Parser dispatch** (`Parsers`). The regular-expression rule table is
  tried in order, and the first match wins. `re.match` is anchored at the
  start. `.` does not match a newline. `$` may also match before a final
  newline.
- **Display label** (`Output`). The dependency name with its `dev` and
  `transitive` tags.

Supporting modules:
- `Wrappers`: `Option`, and a `Result` whose failures are the Python
  exceptions the core raises.
- `Models`: the records.
- `Strings` and `Paths`: the `str` and POSIX `os.path` operations used.
- `Packaging`: the `packaging` library (PEP 440 versions and specifiers),
  passed to every operation as a record of functions, with its version type
  as a type parameter.

The code works step by step in four places, and there the model is a
`method` proved equal to a specification function:
- the selection loops;
- the repository loops;
- the dict-filling and list-appending loops of the parsers;
- `process_dependency` and the label builder.

The rest is modelled as functions.

The model follows the code on these points:
- The runtime checker compares the declared version with each cycle and
  latest release exactly as written. It does not strip a patch component
  first.
- "End of life soon" is `eol <= today - 90 days`, as the code computes it.
  It is not a 90-day window before the end-of-life date.
- There is no `is_eol` field.
- `VersionResult` has no `is_outdated_major` property. The renderers and
  report.py call an outdated-major check (report.py:84, report.py:193,
  utils/output/cli.py:58), but no such check is defined in the modelled
  code.

## Model

| member | source | states |
|---|---|---|
| SimpleIndex.RepositoryUrl | deps_report/dependencies_version_checkers/python.py:73 | the page of a dependency is fetched at `url/name`; `DependenciesVersionChecker.GetLatestVersionOfDependency` states that the loop fetches exactly these addresses, in repository order |
| SimpleIndex.Reversed | deps_report/dependencies_version_checkers/python.py:23-27 | the listing is read in reverse: same length, element i is element n-1-i of the page |
| SimpleIndex.ReversedConcat | deps_report/dependencies_version_checkers/python.py:23-27 | reversing a concatenation reverses and swaps its parts |
| SimpleIndex.WheelVersion | deps_report/dependencies_version_checkers/python.py:16-17 | the second `-` field of a wheel name; IndexError exactly when the name has no `-`; the result holds no `-` |
| SimpleIndex.WheelFilenameVersion | deps_report/dependencies_version_checkers/python.py:16-17 | `project-version-tags` yields `version` when project and version hold no `-` |
| SimpleIndex.SourceVersion | deps_report/dependencies_version_checkers/python.py:19-21 | the last `-` field with `.zip` and then `.tar.gz` deleted; `SourceFilenameVersion` states that a `prefix-version.ext` archive yields `version` |
| SimpleIndex.SourceFilenameVersion | deps_report/dependencies_version_checkers/python.py:19-21 | `prefix-version.tar.gz` and `prefix-version.zip` yield `version` when it holds no `-` and no archive suffix |
| SimpleIndex.ArchiveSuffixFacts | deps_report/dependencies_version_checkers/python.py:21 | `.zip` and `.tar.gz` cannot overlap themselves, and `.zip` is not inside `.tar.gz`, so each delete removes exactly one trailing suffix |
| SimpleIndex.ArchiveIsNotWheel | deps_report/version_checkers/python.py:40-43 | a name ending in `.tar.gz` or `.zip` never ends in `.egg` or `.whl`, so both checkers read it as a source archive |
| SimpleIndex.FirstAnswer | deps_report/dependencies_version_checkers/python.py:72-85 | the first repository outcome that is neither a ValueError nor a client error decides; if every one is, the result is a VerificationError |
| DependenciesVersionChecker.Candidates | deps_report/dependencies_version_checkers/python.py:41-57 | the parsed versions of the filenames, in order, unparseable ones skipped; characterised by `CandidatesConcat`, `CandidateOrigin`, `NoCandidate` and `NoStableCandidate`, and computed by `CollectVersions` |
| DependenciesVersionChecker.SelectLatest | deps_report/dependencies_version_checkers/python.py:59-67 | the first version when all are prereleases, else the first stable one, else ValueError; computed by `ChooseVersion`, characterised by `SelectStable`, `StableNeverPrerelease` and `NothingParses` |
| DependenciesVersionChecker.PageLatest | deps_report/dependencies_version_checkers/python.py:40-67 | the selection over the reversed page, IndexError for a dash-free wheel name; characterised by `LastStableWins`, `PrereleaseOnlyFallback`, `UnparseableIgnored` and `WheelWithoutFields` |
| DependenciesVersionChecker.RepositoryLatest | deps_report/dependencies_version_checkers/python.py:29-67 | a 404 is a ValueError, a client error a ClientError, a page its `PageLatest`; computed by `LatestVersionFromRepository` |
| DependenciesVersionChecker.Outcomes | deps_report/dependencies_version_checkers/python.py:72-77 | one outcome per repository, in preference order, each fetched at `RepositoryUrl` |
| DependenciesVersionChecker.DependencyLatest | deps_report/dependencies_version_checkers/python.py:69-85 | the first decisive repository outcome (`FirstAnswer`); computed by `GetLatestVersionOfDependency`, characterised by `NotFoundTriesNext` |
| DependenciesVersionChecker.FirstStable | deps_report/dependencies_version_checkers/python.py:63-65 | the index of the first stable version, none exactly when all are prereleases |
| DependenciesVersionChecker.CollectVersions | deps_report/dependencies_version_checkers/python.py:41-57 | the loop yields the parsed versions of the filenames in order, skipping unparseable ones, with the flag true iff all are prereleases; IndexError iff some wheel name has no `-` |
| DependenciesVersionChecker.ChooseVersion | deps_report/dependencies_version_checkers/python.py:59-67 | the two scans after the loop return the selection rule's answer: the first version when all are prereleases, else the first stable one, else ValueError |
| DependenciesVersionChecker.LatestVersionFromRepository | deps_report/dependencies_version_checkers/python.py:29-67 | a 404 is a ValueError, a failed connection or error status a client error, a page its selected version |
| DependenciesVersionChecker.GetLatestVersionOfDependency | deps_report/dependencies_version_checkers/python.py:69-85 | the repository loop equals the first decisive outcome over the repositories in order, fetched at `url/name` |
| DependenciesVersionChecker.ExtractableConcat | deps_report/dependencies_version_checkers/python.py:43-47 | a listing yields versions for every filename iff both of its parts do |
| DependenciesVersionChecker.CandidatesConcat | deps_report/dependencies_version_checkers/python.py:41-57 | the parsed versions of a concatenation are those of its parts, in order |
| DependenciesVersionChecker.CandidateOrigin | deps_report/dependencies_version_checkers/python.py:49-57 | every collected version is what some filename of the listing parses to |
| DependenciesVersionChecker.NoStableCandidate | deps_report/dependencies_version_checkers/python.py:54-57 | filenames that never parse to a stable version yield only prereleases |
| DependenciesVersionChecker.NoCandidate | deps_report/dependencies_version_checkers/python.py:49-52 | filenames that never parse yield no version at all |
| DependenciesVersionChecker.ExtractableReversed | deps_report/dependencies_version_checkers/python.py:23-27 | reversing the listing does not change whether every filename yields a version |
| DependenciesVersionChecker.CandidatesAround | deps_report/dependencies_version_checkers/python.py:41-57 | the versions of the reversed page are those listed after filename i, then filename i's own, then those before it |
| DependenciesVersionChecker.LastStableWins | deps_report/dependencies_version_checkers/python.py:63-65 | the answer is the rendering of the last stable version listed, even when prereleases follow it |
| DependenciesVersionChecker.LaterPrereleases | deps_report/dependencies_version_checkers/python.py:43-57 | filenames listed after i that parse to no stable version contribute only prereleases |
| DependenciesVersionChecker.SelectStable | deps_report/dependencies_version_checkers/python.py:59-65 | a stable version preceded only by prereleases is selected |
| DependenciesVersionChecker.PrereleaseOnlyFallback | deps_report/dependencies_version_checkers/python.py:42-61 | when every version that parses is a prerelease, the last one listed is returned |
| DependenciesVersionChecker.LaterUnparsed | deps_report/dependencies_version_checkers/python.py:49-52 | filenames listed after i that do not parse contribute nothing |
| DependenciesVersionChecker.AllPrereleaseReversed | deps_report/dependencies_version_checkers/python.py:54-57 | a page without a stable version yields only prereleases in reversed order |
| DependenciesVersionChecker.StableNeverPrerelease | deps_report/dependencies_version_checkers/python.py:63-65 | once one listed version is stable, the answer is the rendering of a stable version |
| DependenciesVersionChecker.NothingParses | deps_report/dependencies_version_checkers/python.py:60-67 | a page on which no version parses gives ValueError |
| DependenciesVersionChecker.UnparseableIgnored | deps_report/dependencies_version_checkers/python.py:49-52 | inserting a filename whose version does not parse changes nothing |
| DependenciesVersionChecker.WheelWithoutFields | deps_report/dependencies_version_checkers/python.py:16-45 | a wheel name without `-` makes the whole page fail with IndexError |
| DependenciesVersionChecker.SourceArchiveCandidate | deps_report/dependencies_version_checkers/python.py:19-47 | a source archive name yields the version between its last `-` and its suffix |
| DependenciesVersionChecker.WheelCandidate | deps_report/dependencies_version_checkers/python.py:16-45 | a wheel or egg name yields its second field |
| DependenciesVersionChecker.NotFoundTriesNext | deps_report/dependencies_version_checkers/python.py:33-79 | a 404 from the first repository hands the decision to the remaining repositories |
| VersionChecker.FilenameVersion | deps_report/version_checkers/python.py:40-45 | NotImplementedError iff the name is neither a wheel, an egg nor a source archive; otherwise the same extraction as the newer checker |
| VersionChecker.Scan | deps_report/version_checkers/python.py:39-55 | a returned version is the raw string of a filename that parses to a stable version; failures are ValueError, NotImplementedError or IndexError |
| VersionChecker.PageLatest | deps_report/version_checkers/python.py:39-55 | the scan of the reversed page; characterised by `LastStableWins`, `PrereleaseArchivesGiveUp` and `NoPrereleaseFallback` |
| VersionChecker.RepositoryLatest | deps_report/version_checkers/python.py:28-55 | a 404 is a ValueError, a client error a ClientError, a page its `PageLatest`; computed by `LatestVersionFromRepository` |
| VersionChecker.Outcomes | deps_report/version_checkers/python.py:60-65 | one outcome per repository, in preference order, each fetched at `RepositoryUrl` |
| VersionChecker.DependencyLatest | deps_report/version_checkers/python.py:57-73 | the first decisive repository outcome, NotImplementedError escaping; computed by `GetLatestVersionOfDependency` |
| VersionChecker.LatestVersionFromRepository | deps_report/version_checkers/python.py:28-55 | the loop with early exits equals the scan of the reversed page; 404s and client errors as in the newer checker |
| VersionChecker.GetLatestVersionOfDependency | deps_report/version_checkers/python.py:57-73 | the repository loop equals the first decisive outcome; a NotImplementedError escapes and stops the loop |
| VersionChecker.ScanStops | deps_report/version_checkers/python.py:47-53 | the scan returns the version of the first filename that parses to a stable version when all before it are passed over |
| VersionChecker.ScanExhausted | deps_report/version_checkers/python.py:52-55 | past every filename without a stable version the scan raises ValueError |
| VersionChecker.ScanUnreadable | deps_report/version_checkers/python.py:40-45 | the first filename reached whose version cannot be read ends the scan with its error |
| VersionChecker.LastStableWins | deps_report/version_checkers/python.py:39-53 | the answer is the raw version string of the last stable version listed |
| VersionChecker.LaterPassedOver | deps_report/version_checkers/python.py:39 | the filenames listed after i are the first ones the scan reaches |
| VersionChecker.PrereleaseArchivesGiveUp | deps_report/version_checkers/python.py:52-55 | a listing of prerelease or unparseable source archives raises ValueError |
| VersionChecker.PrereleaseArchivesFallBack | deps_report/dependencies_version_checkers/python.py:60-61 | the same listing gives the newer checker the last prerelease listed |
| VersionChecker.NoPrereleaseFallback | deps_report/version_checkers/python.py:52-55 | on such a listing the earlier checker raises ValueError where the newer one returns the last prerelease |
| VulnerabilityChecker.FirstMatch | deps_report/vulnerabilities_checkers/python.py:56-67 | none iff no constraint contains the version; otherwise the first entry that does, with its advisory, cve and constraint |
| VulnerabilityChecker.Vulnerable | deps_report/vulnerabilities_checkers/python.py:42-67 | VerificationError iff the data is missing or empty; not vulnerable iff the name is absent or no constraint matches |
| VulnerabilityChecker.PythonVulnerabilityChecker.constructor | deps_report/vulnerabilities_checkers/python.py:22-24 | the checker holds the data it is given |
| VulnerabilityChecker.PythonVulnerabilityChecker.Create | deps_report/vulnerabilities_checkers/python.py:26-40 | a failed download yields a checker without data rather than an error; a download yields its content |
| VulnerabilityChecker.PythonVulnerabilityChecker.CheckIfPackageIsVulnerable | deps_report/vulnerabilities_checkers/python.py:42-67 | the scan loop equals the lookup over the checker's data and changes nothing |
| VulnerabilityChecker.ReportedAdvisory | deps_report/vulnerabilities_checkers/python.py:56-65 | the first entry whose constraint contains the version is reported, with that constraint as the impacted versions |
| VulnerabilityChecker.OtherPackagesIrrelevant | deps_report/vulnerabilities_checkers/python.py:52 | entries for other packages never change a package's answer |
| RuntimeVersionChecker.FindRelease | deps_report/runtime_version_checkers/python.py:32-39 | the first cycle whose name or latest release equals the version exactly; none iff no cycle does |
| RuntimeVersionChecker.GetRuntimeInformations | deps_report/runtime_version_checkers/python.py:22-58 | fails iff the download failed or no cycle matches; IndexError for an empty list, VerificationError otherwise; the name is "Python" and the latest version the newest cycle |
| RuntimeVersionChecker.MatchedRelease | deps_report/runtime_version_checkers/python.py:47-58 | the record names the matched cycle, the newest cycle, outdated iff they differ, the cycle's end of life, and "soon" iff eol <= today - 90 |
| RuntimeVersionChecker.NewestNeverOutdated | deps_report/runtime_version_checkers/python.py:53-54 | a version of the newest cycle is never outdated |
| RuntimeVersionChecker.EolSoonPersists | deps_report/runtime_version_checkers/python.py:56-57 | once flagged as ending soon, a cycle stays flagged on every later day |
| RuntimeVersionChecker.PatchReleaseUnknown | deps_report/runtime_version_checkers/python.py:32-45 | "3.11.2" against cycle "3.11" with latest "3.11.4" is an unknown version: there is no patch normalisation |
| Processing.Process | deps_report/processing.py:9-58 | at most one error, about this dependency; a failed version check gives only "Could not fetch latest version"; an update iff installed < latest, with both normalised; the vulnerability error iff that check raised VerificationError, keeping the version result; a found advisory copied; exactly which exceptions escape |
| Processing.Parse | deps_report/processing.py:20-32 | parsing fails with ValueError exactly when the library rejects the string |
| Processing.ProcessDependency | deps_report/processing.py:9-58 | the step-by-step procedure equals `Process` on the dependency checker's answer and the vulnerability checker's answer |
| Project.Somes | deps_report/main.py:55-56 | `filter(None, ...)` keeps exactly the present values, never more than there were |
| Project.Flatten | deps_report/main.py:52 | the chained list holds exactly the elements of the lists, and its length is the sum of theirs |
| Project.ProcessAll | deps_report/main.py:42-49 | one triple per dependency in input order, or the failure of the first dependency whose processing raises |
| Project.VersionColumn | deps_report/main.py:51 | the unzipped version column, position by position |
| Project.VulnerabilityColumn | deps_report/main.py:51 | the unzipped vulnerability column, position by position |
| Project.ErrorColumn | deps_report/main.py:51 | the unzipped error column, position by position |
| Project.ProjectReport | deps_report/main.py:42-56 | the gathered results partitioned into the three report lists, or the first exception; characterised by `ReportedVersion` and `ProjectErrorsBounded` |
| Project.Partition | deps_report/main.py:51-56 | the three-way unpack raises ValueError exactly when there is no result |
| Project.SomesConcat | deps_report/main.py:55-56 | filtering keeps order across concatenation |
| Project.FlattenConcat | deps_report/main.py:52 | flattening keeps order across concatenation |
| Project.PartitionConcat | deps_report/main.py:51-56 | the report of two groups is the report of the first followed by that of the second, with nothing merged or deduplicated |
| Project.ReportedVersion | deps_report/main.py:42-56 | a VersionResult is reported iff some dependency's processing produced it |
| Project.ErrorsBounded | deps_report/main.py:51-52 | lists of at most one error each flatten to at most one error per result |
| Project.ProjectErrorsBounded | deps_report/main.py:42-56 | a project report holds at most one error per dependency |
| Strings.Split | deps_report/dependencies_version_checkers/python.py:17-20 | `split("-")` gives at least one field, exactly one iff there is no separator, and no field holds the separator |
| Strings.Join | deps_report/utils/output/common.py:15 | `sep.join(parts)`; inverts `Split` (`JoinSplit`) and gives the tag text of `Output.DisplayLabel` (`Output.TagsText`) |
| Strings.LastIndexOf | deps_report/parsers/python_pipenv.py:17 | the last index holding the character, or -1 when none does |
| Strings.SplitWithoutSeparator | deps_report/dependencies_version_checkers/python.py:17-20 | a string without the separator splits into itself |
| Strings.SplitAtSeparator | deps_report/dependencies_version_checkers/python.py:17-20 | splitting at one separator splits the field list in two |
| Strings.JoinSplit | deps_report/dependencies_version_checkers/python.py:17-20 | joining the fields with the separator gives the string back |
| Strings.ReplaceAbsent | deps_report/dependencies_version_checkers/python.py:21 | replacing an absent pattern changes nothing |
| Strings.Replace | deps_report/parsers/python_pipenv.py:82 | `str.replace`, left to right without overlap; characterised by `ReplaceAbsent`, `RemoveTrailing`, `ReplaceKeepsHead` and `DeleteDoubleEquals` |
| Strings.RemoveTrailing | deps_report/dependencies_version_checkers/python.py:21 | deleting a self-non-overlapping pattern removes exactly one trailing copy from a string that lacked it |
| Strings.AbsentFromConcat | deps_report/dependencies_version_checkers/python.py:21 | a pattern cannot straddle a boundary it does not fit across |
| Strings.ReplaceKeepsHead | deps_report/dependencies_version_checkers/python.py:21 | a replacement that cannot start at the first character keeps it |
| Strings.DeleteDoubleEquals | deps_report/parsers/python_pipenv.py:82 | after deleting every `==` no `==` remains |
| Paths.StripTrailingSlashes | deps_report/parsers/python_pipenv.py:17 | a prefix of the path, not ending in `/`, followed only by slashes |
| Paths.PathSplit | deps_report/parsers/python_pipenv.py:17 | the name has no `/` and ends the path; the directory is normalised |
| Paths.SplitExt | deps_report/parsers/python_pipenv.py:22 | root and extension concatenate to the path; the extension is empty or one dot followed by no dot and no `/` |
| Paths.PathJoin | deps_report/parsers/python_pipenv.py:24 | `os.path.join` of two components; `SplitOfJoin` states that `os.path.split` gives both back |
| Paths.SplitOfJoin | deps_report/parsers/python_pipenv.py:17-24 | splitting a joined directory and file name gives both back |
| Pipenv.LockPath | deps_report/parsers/python_pipenv.py:16-26 | `_get_lock_path`; characterised by `LockPathOfLock` (a `Pipfile.lock` is read as given) and `LockPathSameDirectory` (any other name becomes `ok_<stem>.txt` in the same directory) |
| Pipenv.RewrittenName | deps_report/parsers/python_pipenv.py:22-23 | the `ok_<stem>.txt` name is a plain file name |
| Pipenv.LockPathSameDirectory | deps_report/parsers/python_pipenv.py:22-26 | any file other than `Pipfile.lock` becomes `ok_<stem>.txt` in the same directory |
| Pipenv.LockPathOfLock | deps_report/parsers/python_pipenv.py:19-20 | a `Pipfile.lock` path is read as given |
| Pipenv.Get | deps_report/parsers/python_pipenv.py:44-60 | dict lookup: none iff no entry has the name, otherwise an entry of the table with that name |
| Pipenv.Put | deps_report/parsers/python_pipenv.py:39-42 | a new name is appended last; an existing name keeps its index and takes the new entry; names stay distinct |
| Pipenv.GetAfterPut | deps_report/parsers/python_pipenv.py:39-42 | after assignment the name maps to the new entry and every other name is unchanged |
| Pipenv.Fill | deps_report/parsers/python_pipenv.py:36-42 | the filled table has distinct names |
| Pipenv.Repositories | deps_report/parsers/python_pipenv.py:32-47 | the repository table has distinct names |
| Pipenv.LastNamed | deps_report/parsers/python_pipenv.py:37-42 | the last source with the name, none iff no source has it |
| Pipenv.FillLookup | deps_report/parsers/python_pipenv.py:36-42 | each name maps to its last source, with the URL expanded |
| Pipenv.RepositoryLookup | deps_report/parsers/python_pipenv.py:36-45 | one entry per source name, the last source winning, URLs expanded; `pypi` is the default only when no source has that name |
| Pipenv.GetAppend | deps_report/parsers/python_pipenv.py:44-45 | appending a new name makes only that name found |
| Pipenv.GetRepositories | deps_report/parsers/python_pipenv.py:32-47 | the dict-filling loop builds the table `Repositories` describes |
| Pipenv.WithoutName | deps_report/parsers/python_pipenv.py:60-62 | exactly the entries with another name |
| Pipenv.WithoutUrl | deps_report/parsers/python_pipenv.py:64-68 | exactly the entries at another URL |
| Pipenv.WithoutNameConcat | deps_report/parsers/python_pipenv.py:60-62 | filtering by name keeps the table order across concatenation |
| Pipenv.WithoutUrlConcat | deps_report/parsers/python_pipenv.py:64-68 | filtering by URL keeps the table order across concatenation |
| Pipenv.RepositoriesFor | deps_report/parsers/python_pipenv.py:49-68 | KeyError iff a non-empty index names no entry; otherwise a non-empty list |
| Pipenv.WithoutNamePermutation | deps_report/parsers/python_pipenv.py:58-62 | the named entry followed by the others is a permutation of the table |
| Pipenv.WithoutNameAbsent | deps_report/parsers/python_pipenv.py:60-62 | filtering out a name no entry has keeps the table |
| Pipenv.ExplicitIndexReorders | deps_report/parsers/python_pipenv.py:58-62 | with an index, the list starts with the named repository and is a permutation of the table |
| Pipenv.DefaultFirst | deps_report/parsers/python_pipenv.py:64-68 | without an index, pypi comes first, followed by exactly the entries at another URL |
| Pipenv.PackageDependency | deps_report/parsers/python_pipenv.py:77-86 | KeyError iff the entry has no version or names an absent index; otherwise the entry's name, its version with `==` deleted, the repositories `_get_repositories_for_dependency` gives, and both flags false |
| Pipenv.Dependencies | deps_report/parsers/python_pipenv.py:70-89 | `get_dependencies` over the lock file's sources and `default` section; characterised by `DependenciesFrom`, `DependenciesStop` and `RepositoryLookup`, and computed by `GetDependencies` |
| Pipenv.DependenciesFrom | deps_report/parsers/python_pipenv.py:76-89 | one dependency per `default` entry in order, or the error of some entry |
| Pipenv.DependenciesStop | deps_report/parsers/python_pipenv.py:77-87 | the first entry that fails decides the error of the whole list |
| Pipenv.GetDependencies | deps_report/parsers/python_pipenv.py:70-89 | the appending loop builds the list `Dependencies` describes |
| Poetry.GetFilePaths | deps_report/parsers/python/poetry.py:18-32 | ValueError iff the file name is neither `poetry.lock` nor `pyproject.toml` |
| Poetry.PairedInSameDirectory | deps_report/parsers/python/poetry.py:22-28 | either file of a directory pairs with the other file of the same directory |
| Poetry.IsTransitive | deps_report/parsers/python/poetry.py:37-46 | KeyError iff a table the short-circuit reads is missing; otherwise transitive iff the name is in neither table, false as soon as `dependencies` has it |
| Poetry.PackageDependency | deps_report/parsers/python/poetry.py:59-70 | KeyError iff `version` or `category` is missing or the transitive check reads a missing table; otherwise name and version copied, dev iff category is "dev", repositories exactly pypi, the transitive flag from the pyproject |
| Poetry.GetDependencies | deps_report/parsers/python/poetry.py:48-73 | succeeds whenever every lock package is readable, with one dependency per package in order; fails only with the KeyError of some unreadable package |
| Poetry.GetRuntimeVersion | deps_report/parsers/python/poetry.py:75-77 | a poetry project declares no runtime version |
| Parsers.Literal | deps_report/parsers/__init__.py:8-10 | the pattern of a literal matches its characters one for one |
| Parsers.Construct | deps_report/parsers/python/poetry.py:12-32 | `parser_class(file_path)`: the pipenv class cannot fail and holds the derived lock path; the poetry class raises ValueError iff the file name is neither `poetry.lock` nor `pyproject.toml` |
| Parsers.PipenvClassReadsLock | deps_report/parsers/python_pipenv.py:16-30 | the pipenv class, that of parsers/python_pipenv.py, cannot fail: it keeps the path of a `Pipfile.lock` and reads any other `dir/stem.ext` as `dir/ok_stem.txt` |
| Parsers.FirstRule | deps_report/parsers/__init__.py:18-22 | ValueError when no rule matches; otherwise the class of the first matching rule constructed from the path, which fails only with ValueError |
| Parsers.GetParserForFilePath | deps_report/parsers/__init__.py:14-22 | only ValueError escapes; a pipenv parser holds the lock path derived from the given path, a poetry parser the pair `_get_file_paths` gives for it |
| Parsers.MatchesAtEnd | deps_report/parsers/__init__.py:8-10 | a pattern matching a name matches the end of any path ending in it |
| Parsers.RuleAcceptsName | deps_report/parsers/__init__.py:8-10 | a newline-free path ending in an accepted name matches the rule |
| Parsers.RuleRejects | deps_report/parsers/__init__.py:19 | a newline-free path none of whose alternatives fit its end does not match |
| Parsers.SelectedBy | deps_report/parsers/__init__.py:18-20 | the class of the first matching rule of the table is constructed from the path |
| Parsers.PipfileSelectsPipenv | deps_report/parsers/__init__.py:8-20 | paths ending in `Pipfile` or `Pipfile.lock` get the pipenv parser, reading the derived lock path |
| Parsers.PoetryLockSelectsPoetry | deps_report/parsers/python/poetry.py:12-23 | a `poetry.lock` in any directory gets the poetry parser, reading it and the `pyproject.toml` beside it |
| Parsers.PoetryLockRuleFirst | deps_report/parsers/__init__.py:8-20 | a path ending in `poetry.lock` is given to the poetry class, the Pipfile rule never matching it |
| Parsers.PipfileRejects | deps_report/parsers/__init__.py:8 | a path whose last character and sixth character from the end are not `e` does not match the Pipfile rule |
| Parsers.FirstRulesReject | deps_report/parsers/__init__.py:8-9 | a path ending in `m` or `l` matches neither of the first two rules |
| Parsers.LastAtomsReject | deps_report/parsers/__init__.py:8-10 | a rule whose alternatives all end in another letter than the path rejects it |
| Parsers.PyprojectSelectsPoetry | deps_report/parsers/python/poetry.py:12-28 | a `pyproject.toml` in any directory gets the poetry parser, reading it and the `poetry.lock` beside it |
| Parsers.PyprojectRuleFirst | deps_report/parsers/__init__.py:8-20 | a path ending in `pyproject.toml` or `pyproject.tom` is given to the poetry class |
| Parsers.PoetryClassRefuses | deps_report/parsers/python/poetry.py:18-32 | the poetry class raises ValueError for a plain file name other than its two |
| Parsers.MisnamedPoetryFileRejected | deps_report/parsers/__init__.py:9-20 | a slash-free path that ends in `pyproject.tom`, or in `poetry.lock` or `pyproject.toml` after a non-empty prefix, matches a poetry rule and raises ValueError |
| Parsers.TruncatedPyprojectRejected | deps_report/parsers/__init__.py:10-20 | `pyproject.tom` matches the pyproject rule and raises ValueError |
| Parsers.PrefixedPoetryLockRejected | deps_report/parsers/__init__.py:9-20 | `xpoetry.lock` matches the poetry.lock rule and raises ValueError |
| Parsers.LoosePipfileName | deps_report/parsers/__init__.py:8 | the unescaped dot lets any character but a newline stand between `Pipfile` and `lock` |
| Parsers.UnknownFileRejected | deps_report/parsers/__init__.py:22 | `requirements.txt` has no parser: ValueError |
| Output.Tags | deps_report/utils/output/common.py:6-10 | `dev` iff the dev flag, `transitive` iff the transitive flag, `dev` first |
| Output.DisplayLabel | deps_report/utils/output/common.py:4-15 | the name alone when no flag is set, otherwise the name followed by ` (dev)`, ` (transitive)` or ` (dev,transitive)` |
| Output.GetDisplayOutputForDependency | deps_report/utils/output/common.py:4-15 | the appending procedure builds the label `DisplayLabel` describes |
| Output.LabelDeterminesFlags | deps_report/utils/output/common.py:12-15 | two dependencies of one name are labelled alike only when their flags agree |

## Left out

- Network I/O: every HTTP fetch is an input. Fetches are the simple index
  pages (`Response`) and the safety-db and endoflife.date downloads
  (`Download`). Only the 404-versus-other distinction of a repository
  response is kept.
- Exceptions other than client errors during a fetch: a `TransportError`
  stands for a failed connection or an error status, which the repository
  loops catch before trying the next repository. The code catches only
  `ClientConnectionError` and `ClientError`; any other exception raised while
  fetching, such as an `asyncio.TimeoutError` when the session's time limit
  runs out, escapes the loop and ends the run. The model has no such
  outcome.
- HTML parsing (BeautifulSoup), JSON and TOML loading and file opening: their
  results are inputs. These are the anchor texts, the `Lockfile` and
  `LockPackage`/`PyProject` records, the safety-db map and the release list.
- `dateutil` date parsing: end-of-life dates are day numbers, and `today` is
  a parameter.
- `packaging.version` and `SpecifierSet`: uninterpreted functions in
  `Packaging.Library`. An InvalidSpecifier raised by a malformed constraint
  is not modelled.
- Environment-template expansion: an opaque `expand` function.
- `asyncio.gather`: the dependencies are processed one after another, in
  order. When several raise, the first in input order is the one reported.
- Missing keys in decoded files are modelled where the code reads them
  conditionally or where a dependency entry may lack them:
  - the `version` and `index` of a Pipfile.lock entry;
  - `version` and `category` of a poetry package;
  - the two `[tool.poetry]` tables.

  Other missing keys (`_meta.sources`, `default`, `package`, `name`, an
  advisory's `v` or `advisory`, a release's `cycle`, `latest` or `eol`) are
  excluded by the shape of the input records.
- The `develop` section of Pipfile.lock: the code never reads it.
- The record classes: models/dependency.py declares no `for_dev` or
  `transitive` field and models/results/version_result.py names its first
  field `dependency_name`, while their callers (parsers/python/poetry.py:60-70,
  utils/output/common.py:7-9, processing.py:34-38) pass and read `for_dev`,
  `transitive` and `dependency`. The records follow the callers. The pipenv
  parser never passes the two flags; the model sets both to false for its
  dependencies.
- deps_report/parsers/python/pipenv.py, the module parsers/__init__.py
  imports its pipenv class from, is not part of this model. The dispatched
  pipenv class is taken to be `PythonPipenvParser` of
  deps_report/parsers/python_pipenv.py.
- deps_report/parsers/python/common.py is not part of this model. The poetry
  parser's default repository is taken to be pypi at
  `https://pypi.org/simple`, the same as the pipenv parser's.
- Logging calls: they have no effect on results.
- The checker dispatch tables and the abstract base classes: they are
  class-identity lookups and interfaces only.
- The renderers and GitHub posting (utils/output/cli.py,
  utils/output/github_action.py, utils/cli.py, utils/github_action.py),
  gather.py and report.py: output plumbing.
- The click entry points of main.py, the JSON export (main.py:95-109) and the
  runtime branch of `main`: process control and I/O.
