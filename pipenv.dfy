/** PythonPipenvParser (deps_report/parsers/python_pipenv.py): the
    dependencies of a Pipfile.lock, each with the repositories to try, in
    order. The decoded JSON content is an input. */
module Pipenv {
  import opened Wrappers
  import opened Strings
  import opened Paths
  import opened Models

  /** An entry of `_meta.sources`. */
  datatype Source = Source(name: string, url: string)

  /** An entry of the `default` section: its key, its `version` if present
      and its `index` if present. */
  datatype LockedPackage = LockedPackage(name: string, version: Option<string>, index: Option<string>)

  /** The parts of the lock file that are read: `_meta.sources` and the
      `default` section, in file order. */
  datatype Lockfile = Lockfile(sources: seq<Source>, default: seq<LockedPackage>)

  /** `_get_lock_path`: a `Pipfile.lock` is read as given; any other file
      name `stem.ext` is replaced by `ok_stem.txt` in the same directory. */
  function LockPath(givenFilePath: string): string {
    var parts := PathSplit(givenFilePath);
    if parts.name == "Pipfile.lock" then givenFilePath
    else PathJoin(parts.dir, "ok_" + SplitExt(parts.name).root + ".txt")
  }

  /** The rewritten name is a plain file name. */
  function RewrittenName(name: string): (r: string)
    requires '/' !in name
    ensures '/' !in r
  {
    var stem := SplitExt(name).root;
    assert forall k :: 0 <= k < |stem| ==> stem[k] == name[k];
    "ok_" + stem + ".txt"
  }

  lemma LockPathSameDirectory(givenFilePath: string)
    requires PathSplit(givenFilePath).name != "Pipfile.lock"
    ensures PathSplit(LockPath(givenFilePath)) ==
      PathParts(PathSplit(givenFilePath).dir, "ok_" + SplitExt(PathSplit(givenFilePath).name).root + ".txt")
  {
    var parts := PathSplit(givenFilePath);
    SplitOfJoin(parts.dir, RewrittenName(parts.name));
  }

  /** A Pipfile.lock is read where it is. */
  lemma LockPathOfLock(dir: string)
    requires NormalDir(dir)
    ensures LockPath(PathJoin(dir, "Pipfile.lock")) == PathJoin(dir, "Pipfile.lock")
  {
    SplitOfJoin(dir, "Pipfile.lock");
  }

  // ---- The repository table, a dict kept in insertion order ----

  predicate DistinctNames(table: seq<Repository>) {
    forall i, j :: 0 <= i < j < |table| ==> table[i].name != table[j].name
  }

  /** `table[name]`, or None when the key is absent. */
  function Get(table: seq<Repository>, name: string): (r: Option<Repository>)
    ensures r.None? <==> forall i :: 0 <= i < |table| ==> table[i].name != name
    ensures r.Some? ==> r.value in table && r.value.name == name
  {
    if |table| == 0 then None
    else if table[0].name == name then Some(table[0])
    else Get(table[1..], name)
  }

  /** The entry at index i is the first with the given name. */
  predicate FirstNamed(table: seq<Repository>, name: string, i: int) {
    0 <= i < |table| && table[i].name == name && forall j :: 0 <= j < i ==> table[j].name != name
  }

  /** `table[repository.name] = repository`: an existing key keeps its
      place and takes the new value; a new key goes last. */
  function Put(table: seq<Repository>, repository: Repository): (t: seq<Repository>)
    ensures DistinctNames(table) ==> DistinctNames(t)
    ensures forall i :: 0 <= i < |t| ==> t[i] == repository || t[i] in table
    ensures Get(table, repository.name).None? ==> t == table + [repository]
    ensures forall i :: FirstNamed(table, repository.name, i) ==> t == table[i := repository]
    decreases |table|
  {
    if |table| == 0 then [repository]
    else if table[0].name == repository.name then [repository] + table[1..]
    else
      var rest := Put(table[1..], repository);
      PutKeepsDistinct(table, repository, rest);
      PutReplacesFirst(table, repository, rest);
      [table[0]] + rest
  }

  /** Below a first entry of another name, a put that keeps the tail's
      names distinct keeps the whole table's distinct. */
  lemma PutKeepsDistinct(table: seq<Repository>, repository: Repository, rest: seq<Repository>)
    requires |table| > 0 && table[0].name != repository.name
    requires DistinctNames(table[1..]) ==> DistinctNames(rest)
    requires forall i :: 0 <= i < |rest| ==> rest[i] == repository || rest[i] in table[1..]
    ensures DistinctNames(table) ==> DistinctNames([table[0]] + rest)
  {
    if DistinctNames(table) {
      assert DistinctNames(table[1..]);
      forall i | 0 <= i < |rest| ensures rest[i].name != table[0].name {
        if rest[i] != repository {
          var k :| 0 <= k < |table[1..]| && table[1..][k] == rest[i];
          assert table[k + 1] == rest[i];
        }
      }
    }
  }

  /** Below a first entry of another name, replacing the first entry of the
      name in the tail replaces it in the whole table. */
  lemma PutReplacesFirst(table: seq<Repository>, repository: Repository, rest: seq<Repository>)
    requires |table| > 0 && table[0].name != repository.name
    requires forall i :: FirstNamed(table[1..], repository.name, i) ==> rest == table[1..][i := repository]
    ensures forall i :: FirstNamed(table, repository.name, i) ==> [table[0]] + rest == table[i := repository]
  {
    forall i | FirstNamed(table, repository.name, i) ensures [table[0]] + rest == table[i := repository] {
      assert FirstNamed(table[1..], repository.name, i - 1);
      assert table[i := repository] == [table[0]] + table[1..][i - 1 := repository];
    }
  }

  lemma {:induction false} GetAfterPut(table: seq<Repository>, repository: Repository, name: string)
    ensures Get(Put(table, repository), name) == if name == repository.name then Some(repository) else Get(table, name)
  {
    if |table| > 0 && table[0].name != repository.name {
      GetAfterPut(table[1..], repository, name);
    }
  }

  /** The table before the default entry: every source, URL expanded, in
      order. */
  function Fill(sources: seq<Source>, expand: string -> string): (t: seq<Repository>)
    ensures DistinctNames(t)
  {
    if |sources| == 0 then []
    else
      var last := sources[|sources| - 1];
      Put(Fill(sources[..|sources| - 1], expand), Repository(last.name, expand(last.url)))
  }

  /** `_get_repositories` */
  function Repositories(sources: seq<Source>, expand: string -> string): (t: seq<Repository>)
    ensures DistinctNames(t)
  {
    var table := Fill(sources, expand);
    if Get(table, DefaultRepository.name).None? then table + [DefaultRepository] else table
  }

  /** The last source with the given name. */
  function LastNamed(sources: seq<Source>, name: string): (r: Option<Source>)
    ensures r.Some? ==> r.value in sources && r.value.name == name
    ensures r.None? <==> forall i :: 0 <= i < |sources| ==> sources[i].name != name
  {
    if |sources| == 0 then None
    else if sources[|sources| - 1].name == name then Some(sources[|sources| - 1])
    else LastNamed(sources[..|sources| - 1], name)
  }

  lemma {:induction false} FillLookup(sources: seq<Source>, expand: string -> string, name: string)
    ensures Get(Fill(sources, expand), name) ==
      match LastNamed(sources, name)
      case None => None
      case Some(s) => Some(Repository(name, expand(s.url)))
  {
    if |sources| > 0 {
      var last := sources[|sources| - 1];
      FillLookup(sources[..|sources| - 1], expand, name);
      GetAfterPut(Fill(sources[..|sources| - 1], expand), Repository(last.name, expand(last.url)), name);
    }
  }

  /** One entry per source name, the last source of a name winning, URLs
      expanded; `pypi` is the default repository unless a source has that
      name. */
  lemma RepositoryLookup(sources: seq<Source>, expand: string -> string, name: string)
    ensures Get(Repositories(sources, expand), name) ==
      match LastNamed(sources, name)
      case Some(s) => Some(Repository(name, expand(s.url)))
      case None => if name == DefaultRepository.name then Some(DefaultRepository) else None
  {
    var table := Fill(sources, expand);
    FillLookup(sources, expand, name);
    if Get(table, DefaultRepository.name).None? {
      assert Get(table + [DefaultRepository], name) == if name == DefaultRepository.name then Some(DefaultRepository) else Get(table, name) by {
        GetAppend(table, DefaultRepository, name);
      }
    } else {
      FillLookup(sources, expand, DefaultRepository.name);
    }
  }

  lemma {:induction false} GetAppend(table: seq<Repository>, repository: Repository, name: string)
    requires Get(table, repository.name).None?
    ensures Get(table + [repository], name) == if name == repository.name then Some(repository) else Get(table, name)
  {
    if |table| > 0 {
      assert (table + [repository])[1..] == table[1..] + [repository];
      GetAppend(table[1..], repository, name);
    }
  }

  /** `_get_repositories` as the loop fills the dict. */
  method GetRepositories(sources: seq<Source>, expand: string -> string) returns (table: seq<Repository>)
    ensures table == Repositories(sources, expand)
  {
    table := [];
    var i := 0;
    while i < |sources|
      invariant 0 <= i <= |sources|
      invariant table == Fill(sources[..i], expand)
    {
      var name := sources[i].name;
      table := Put(table, Repository(name, expand(sources[i].url)));
      assert sources[..i + 1][..i] == sources[..i];
      i := i + 1;
    }
    assert sources[..i] == sources;
    if Get(table, DefaultRepository.name).None? {
      table := table + [DefaultRepository];
    }
  }

  // ---- Repositories of one dependency ----

  /** The entries whose name differs from `name`, in table order. */
  function WithoutName(table: seq<Repository>, name: string): (r: seq<Repository>)
    ensures forall x :: x in r <==> x in table && x.name != name
  {
    if |table| == 0 then []
    else
      var rest := WithoutName(table[1..], name);
      assert forall x :: x in table <==> x == table[0] || x in table[1..];
      if table[0].name != name then [table[0]] + rest else rest
  }

  /** The entries whose URL differs from `url`, in table order. The same
      filter as `WithoutName` on another field, kept apart as the two
      comprehensions of the source are. */
  function WithoutUrl(table: seq<Repository>, url: string): (r: seq<Repository>)
    ensures forall x :: x in r <==> x in table && x.url != url
  {
    if |table| == 0 then []
    else
      var rest := WithoutUrl(table[1..], url);
      assert forall x :: x in table <==> x == table[0] || x in table[1..];
      if table[0].url != url then [table[0]] + rest else rest
  }

  /** Filtering by name keeps the table order: it filters the two parts of
      a table separately and puts them back in the same order. */
  lemma {:induction false} WithoutNameConcat(a: seq<Repository>, b: seq<Repository>, name: string)
    ensures WithoutName(a + b, name) == WithoutName(a, name) + WithoutName(b, name)
  {
    if |a| > 0 {
      assert (a + b)[1..] == a[1..] + b && (a + b)[0] == a[0];
      WithoutNameConcat(a[1..], b, name);
    } else {
      assert a + b == b;
    }
  }

  /** Filtering by URL keeps the table order, in the same way. */
  lemma {:induction false} WithoutUrlConcat(a: seq<Repository>, b: seq<Repository>, url: string)
    ensures WithoutUrl(a + b, url) == WithoutUrl(a, url) + WithoutUrl(b, url)
  {
    if |a| > 0 {
      assert (a + b)[1..] == a[1..] + b && (a + b)[0] == a[0];
      WithoutUrlConcat(a[1..], b, url);
    } else {
      assert a + b == b;
    }
  }

  /** `_get_repositories_for_dependency`: an explicit (non-empty) `index`
      first, then every other entry; otherwise pypi first, then every entry
      not at pypi's URL. An index naming no entry raises KeyError. */
  function RepositoriesFor(table: seq<Repository>, index: Option<string>): (r: Result<seq<Repository>>)
    ensures r.Fail? <==> index.Some? && index.value != "" && Get(table, index.value).None?
    ensures r.Fail? ==> r.error == KeyError
    ensures r.Ok? ==> |r.value| > 0
  {
    if index.Some? && index.value != "" then
      match Get(table, index.value)
      case None => Fail(KeyError)
      case Some(repository) => Ok([repository] + WithoutName(table, index.value))
    else Ok([DefaultRepository] + WithoutUrl(table, DefaultRepository.url))
  }

  lemma {:induction false} WithoutNamePermutation(table: seq<Repository>, name: string)
    requires DistinctNames(table) && Get(table, name).Some?
    ensures multiset([Get(table, name).value] + WithoutName(table, name)) == multiset(table)
  {
    var head, tail := table[0], table[1..];
    assert table == [head] + tail;
    DistinctTail(table);
    if head.name != name {
      var found := Get(table, name).value;
      assert Get(tail, name) == Some(found);
      WithoutNamePermutation(tail, name);
      assert WithoutName(table, name) == [head] + WithoutName(tail, name);
      calc {
        multiset([found] + WithoutName(table, name));
        multiset([head]) + multiset([found] + WithoutName(tail, name));
        multiset([head]) + multiset(tail);
      }
    } else {
      WithoutNameAbsent(tail, name);
      assert WithoutName(table, name) == tail;
    }
  }

  /** Below the first entry, names stay distinct and differ from the
      first one's. */
  lemma DistinctTail(table: seq<Repository>)
    requires DistinctNames(table) && |table| > 0
    ensures DistinctNames(table[1..])
    ensures forall i :: 0 <= i < |table| - 1 ==> table[1..][i].name != table[0].name
  {
    var tail := table[1..];
    forall i, j | 0 <= i < j < |tail| ensures tail[i].name != tail[j].name {
      assert tail[i] == table[i + 1] && tail[j] == table[j + 1];
    }
    forall i | 0 <= i < |tail| ensures tail[i].name != table[0].name {
      assert tail[i] == table[i + 1];
    }
  }

  lemma {:induction false} WithoutNameAbsent(table: seq<Repository>, name: string)
    requires forall i :: 0 <= i < |table| ==> table[i].name != name
    ensures WithoutName(table, name) == table
  {
    if |table| > 0 {
      WithoutNameAbsent(table[1..], name);
    }
  }

  /** With an explicit index, the dependency's repositories are the whole
      table reordered, the named one first. */
  lemma ExplicitIndexReorders(table: seq<Repository>, index: string)
    requires DistinctNames(table) && index != "" && Get(table, index).Some?
    ensures RepositoriesFor(table, Some(index)).Ok?
    ensures RepositoriesFor(table, Some(index)).value[0].name == index
    ensures multiset(RepositoriesFor(table, Some(index)).value) == multiset(table)
  {
    WithoutNamePermutation(table, index);
  }

  /** Without an index, pypi comes first and no other entry at its URL is
      tried again; every other entry is tried. */
  lemma DefaultFirst(table: seq<Repository>, index: Option<string>, repository: Repository)
    requires index.None? || index.value == ""
    ensures RepositoriesFor(table, index).Ok?
    ensures RepositoriesFor(table, index).value[0] == DefaultRepository
    ensures repository in RepositoriesFor(table, index).value[1..] <==>
      repository in table && repository.url != DefaultRepository.url
  {
    assert RepositoriesFor(table, index).value[1..] == WithoutUrl(table, DefaultRepository.url);
  }

  // ---- Dependencies ----

  /** The Dependency of one `default` entry: a missing version raises
      KeyError before the index is looked up. */
  function PackageDependency(table: seq<Repository>, package: LockedPackage): (r: Result<Dependency>)
    ensures r.Fail? <==> package.version.None? || RepositoriesFor(table, package.index).Fail?
    ensures r.Fail? ==> r.error == KeyError
    ensures r.Ok? ==> r.value.name == package.name && !Occurs(r.value.version, "==")
    ensures r.Ok? ==> r.value.version == Replace(package.version.value, "==", "")
    ensures r.Ok? ==> r.value.repositories == RepositoriesFor(table, package.index).value
    ensures r.Ok? ==> !r.value.forDev && !r.value.transitive
  {
    match package.version
    case None => Fail(KeyError)
    case Some(version) =>
      var repositories :- RepositoriesFor(table, package.index);
      DeleteDoubleEquals(version);
      Ok(Dependency(package.name, Replace(version, "==", ""), repositories, false, false))
  }

  /** `get_dependencies`: one Dependency per `default` entry, in order; the
      `develop` section is never read. */
  function Dependencies(lock: Lockfile, expand: string -> string): Result<seq<Dependency>> {
    DependenciesFrom(Repositories(lock.sources, expand), lock.default)
  }

  function DependenciesFrom(table: seq<Repository>, packages: seq<LockedPackage>): (r: Result<seq<Dependency>>)
    ensures r.Ok? ==> |r.value| == |packages|
    ensures r.Ok? ==> forall i :: 0 <= i < |packages| ==> PackageDependency(table, packages[i]) == Ok(r.value[i])
    ensures r.Fail? ==> exists i :: 0 <= i < |packages| && PackageDependency(table, packages[i]) == Fail(r.error)
  {
    if |packages| == 0 then Ok([])
    else
      var n := |packages|;
      var init := DependenciesFrom(table, packages[..n - 1]);
      assert forall i :: 0 <= i < n - 1 ==> packages[..n - 1][i] == packages[i];
      var dependencies :- init;
      var last :- PackageDependency(table, packages[n - 1]);
      Ok(dependencies + [last])
  }

  /** The first entry that fails decides the error of the whole list. */
  lemma {:induction false} DependenciesStop(table: seq<Repository>, packages: seq<LockedPackage>, i: nat)
    requires i < |packages| && DependenciesFrom(table, packages[..i]).Ok?
    requires PackageDependency(table, packages[i]).Fail?
    ensures DependenciesFrom(table, packages) == Fail(PackageDependency(table, packages[i]).error)
  {
    var n := |packages|;
    if i == n - 1 {
      assert packages[..n - 1] == packages[..i];
    } else {
      var init := packages[..n - 1];
      assert init[..i] == packages[..i] && init[i] == packages[i];
      DependenciesStop(table, init, i);
    }
  }

  method GetDependencies(lock: Lockfile, expand: string -> string) returns (r: Result<seq<Dependency>>)
    ensures r == Dependencies(lock, expand)
  {
    var repositories := GetRepositories(lock.sources, expand);
    var packages := lock.default;
    var parsed: seq<Dependency> := [];
    var i := 0;
    while i < |packages|
      invariant 0 <= i <= |packages|
      invariant DependenciesFrom(repositories, packages[..i]) == Ok(parsed)
    {
      assert packages[..i + 1][..i] == packages[..i];
      var package := packages[i];
      if package.version.None? {
        DependenciesStop(repositories, packages, i);
        return Fail(KeyError);
      }
      var version := Replace(package.version.value, "==", "");
      var forDependency := RepositoriesFor(repositories, package.index);
      if forDependency.Fail? {
        DependenciesStop(repositories, packages, i);
        return Fail(forDependency.error);
      }
      parsed := parsed + [Dependency(package.name, version, forDependency.value, false, false)];
      i := i + 1;
    }
    assert packages[..i] == packages;
    return Ok(parsed);
  }
}
