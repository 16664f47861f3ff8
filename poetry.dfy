/** PythonPoetryParser (deps_report/parsers/python/poetry.py): the
    dependencies of a poetry.lock, flagged against the project's
    pyproject.toml. Both decoded TOML contents are inputs. */
module Poetry {
  import opened Wrappers
  import opened Paths
  import opened Models

  /** The two files a poetry project is read from. */
  datatype FilePaths = FilePaths(pyproject: string, lock: string)

  /** A `[[package]]` entry of poetry.lock; a key the file lacks is None. */
  datatype LockPackage = LockPackage(name: string, version: Option<string>, category: Option<string>)

  /** The two dependency tables of `[tool.poetry]`, by their names; a
      table the file lacks is None. */
  datatype PyProject = PyProject(dependencies: Option<set<string>>, devDependencies: Option<set<string>>)

  /** `_get_file_paths`: either file of the pair names the other, in the
      same directory; any other file name raises ValueError. */
  function GetFilePaths(givenFilePath: string): (r: Result<FilePaths>)
    ensures r.Fail? <==> PathSplit(givenFilePath).name != "poetry.lock" && PathSplit(givenFilePath).name != "pyproject.toml"
    ensures r.Fail? ==> r.error == ValueError
  {
    var parts := PathSplit(givenFilePath);
    if parts.name == "poetry.lock" then Ok(FilePaths(PathJoin(parts.dir, "pyproject.toml"), givenFilePath))
    else if parts.name == "pyproject.toml" then Ok(FilePaths(givenFilePath, PathJoin(parts.dir, "poetry.lock")))
    else Fail(ValueError)
  }

  /** Given either file of a directory, the parser reads both files of that
      directory. */
  lemma PairedInSameDirectory(dir: string, name: string)
    requires NormalDir(dir) && (name == "poetry.lock" || name == "pyproject.toml")
    ensures GetFilePaths(PathJoin(dir, name)) == Ok(FilePaths(PathJoin(dir, "pyproject.toml"), PathJoin(dir, "poetry.lock")))
  {
    SplitOfJoin(dir, name);
  }

  /** `_get_repositories`: only pypi. */
  const RepositoryTable: map<string, Repository> := map["pypi" := DefaultRepository]

  /** `_is_transitive_dependency`: declared in neither table. The
      `dev-dependencies` table is only read when the name is not in
      `dependencies`; reading a missing table raises KeyError. */
  function IsTransitive(pyproject: PyProject, name: string): (r: Result<bool>)
    ensures r.Fail? <==> pyproject.dependencies.None? || (name !in pyproject.dependencies.value && pyproject.devDependencies.None?)
    ensures r.Fail? ==> r.error == KeyError
    ensures r.Ok? ==> (r.value <==>
      name !in pyproject.dependencies.value && pyproject.devDependencies.Some? && name !in pyproject.devDependencies.value)
  {
    match pyproject.dependencies
    case None => Fail(KeyError)
    case Some(dependencies) =>
      if name in dependencies then Ok(false)
      else match pyproject.devDependencies
        case None => Fail(KeyError)
        case Some(devDependencies) => Ok(name !in devDependencies)
  }

  /** The Dependency of one lock package. */
  function PackageDependency(pyproject: PyProject, package: LockPackage): (r: Result<Dependency>)
    ensures r.Fail? <==> package.version.None? || package.category.None? || IsTransitive(pyproject, package.name).Fail?
    ensures r.Fail? ==> r.error == KeyError
    ensures r.Ok? ==> && r.value.name == package.name
                      && Some(r.value.version) == package.version
                      && (r.value.forDev <==> package.category == Some("dev"))
                      && r.value.repositories == [DefaultRepository]
                      && IsTransitive(pyproject, package.name) == Ok(r.value.transitive)
  {
    if package.version.None? || package.category.None? then Fail(KeyError)
    else
      var transitive :- IsTransitive(pyproject, package.name);
      Ok(Dependency(package.name, package.version.value, [RepositoryTable["pypi"]], package.category.value == "dev", transitive))
  }

  /** `get_dependencies`: one Dependency per lock package, in order, or the
      KeyError of the first package missing a key. */
  method GetDependencies(packages: seq<LockPackage>, pyproject: PyProject) returns (r: Result<seq<Dependency>>)
    ensures r.Ok? ==> |r.value| == |packages|
    ensures r.Ok? ==> forall i :: 0 <= i < |packages| ==> PackageDependency(pyproject, packages[i]) == Ok(r.value[i])
    ensures r.Fail? ==> r.error == KeyError && exists i :: 0 <= i < |packages| && PackageDependency(pyproject, packages[i]).Fail?
    ensures (forall i :: 0 <= i < |packages| ==> PackageDependency(pyproject, packages[i]).Ok?) ==> r.Ok?
  {
    var repositories := RepositoryTable;
    var dependencies: seq<Dependency> := [];
    var i := 0;
    while i < |packages|
      invariant 0 <= i <= |packages|
      invariant |dependencies| == i
      invariant forall k :: 0 <= k < i ==> PackageDependency(pyproject, packages[k]) == Ok(dependencies[k])
    {
      var package := packages[i];
      if package.version.None? || package.category.None? {
        return Fail(KeyError);
      }
      var transitive := IsTransitive(pyproject, package.name);
      if transitive.Fail? {
        return Fail(transitive.error);
      }
      dependencies := dependencies + [Dependency(
        package.name,
        package.version.value,
        [repositories["pypi"]],
        package.category.value == "dev",
        transitive.value)];
      i := i + 1;
    }
    return Ok(dependencies);
  }

  /** `get_runtime_version`: a poetry project never declares one here. */
  function GetRuntimeVersion(pyproject: PyProject): (r: Option<string>)
    ensures r.None?
  {
    None
  }
}
