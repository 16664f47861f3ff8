/** PythonVulnerabilityChecker
    (deps_report/vulnerabilities_checkers/python.py): looks a dependency up
    in the safety-db database downloaded once when the checker is made. */
module VulnerabilityChecker {
  import opened Wrappers
  import opened Models
  import opened Packaging

  /** One advisory of the database: the constraint `v` naming the impacted
      versions, the advisory text and its optional CVE. */
  datatype Entry = Entry(v: string, advisory: string, cve: Option<string>)

  /** The decoded database: package name to its advisories, in file order. */
  type Database = map<string, seq<Entry>>

  /** Where the database lives. */
  const DatabaseUrl := "https://raw.githubusercontent.com/pyupio/safety-db/master/data/insecure_full.json"

  /** The first advisory whose constraint contains `version`, as a
      Vulnerability. */
  function FirstMatch<V>(lib: Library<V>, entries: seq<Entry>, version: string): (r: Option<Vulnerability>)
    ensures r.None? <==> forall i :: 0 <= i < |entries| ==> !lib.contains(entries[i].v, version)
    ensures r.Some? ==> exists i ::
      && 0 <= i < |entries|
      && lib.contains(entries[i].v, version)
      && (forall j :: 0 <= j < i ==> !lib.contains(entries[j].v, version))
      && r.value == Vulnerability(entries[i].advisory, entries[i].cve, entries[i].v)
  {
    if |entries| == 0 then None
    else if lib.contains(entries[0].v, version) then
      Some(Vulnerability(entries[0].advisory, entries[0].cve, entries[0].v))
    else
      var r := FirstMatch(lib, entries[1..], version);
      assert forall i :: 1 <= i < |entries| ==> entries[1..][i - 1] == entries[i];
      r
  }

  /** `check_if_package_is_vulnerable` on the checker's data: a missing or
      empty database raises VerificationError, a package the database does
      not know is not vulnerable, otherwise the first matching advisory. */
  function Vulnerable<V>(lib: Library<V>, data: Option<Database>, dependency: Dependency): (r: Result<Option<Vulnerability>>)
    ensures r.Fail? <==> data.None? || data.value == map[]
    ensures r.Fail? ==> r.error == VerificationError
    ensures r == Ok(None) <==>
      && data.Some? && data.value != map[]
      && (dependency.name in data.value ==>
            forall i :: 0 <= i < |data.value[dependency.name]| ==> !lib.contains(data.value[dependency.name][i].v, dependency.version))
  {
    if data.None? || |data.value| == 0 then Fail(VerificationError)
    else if dependency.name !in data.value then Ok(None)
    else Ok(FirstMatch(lib, data.value[dependency.name], dependency.version))
  }

  class PythonVulnerabilityChecker {
    /** The database, or None when it could not be downloaded. */
    const data: Option<Database>

    constructor (data: Option<Database>)
      ensures this.data == data
    {
      this.data := data;
    }

    /** `create`: the database is downloaded once; a client error leaves the
        checker without data rather than failing. */
    static method Create(download: Download<Database>) returns (checker: PythonVulnerabilityChecker)
      ensures fresh(checker)
      ensures download.DownloadFailed? ==> checker.data == None
      ensures download.Downloaded? ==> checker.data == Some(download.content)
    {
      var data := None;
      if download.Downloaded? {
        data := Some(download.content);
      }
      checker := new PythonVulnerabilityChecker(data);
    }

    method CheckIfPackageIsVulnerable<V>(lib: Library<V>, dependency: Dependency) returns (r: Result<Option<Vulnerability>>)
      ensures r == Vulnerable(lib, data, dependency)
    {
      if data.None? || |data.value| == 0 {
        return Fail(VerificationError);
      }
      if dependency.name !in data.value {
        return Ok(None);
      }
      var entries := data.value[dependency.name];
      var i := 0;
      while i < |entries|
        invariant 0 <= i <= |entries|
        invariant FirstMatch(lib, entries[i..], dependency.version) == FirstMatch(lib, entries, dependency.version)
      {
        var entry := entries[i];
        if lib.contains(entry.v, dependency.version) {
          return Ok(Some(Vulnerability(entry.advisory, entry.cve, entry.v)));
        }
        assert entries[i..][1..] == entries[i + 1..];
        i := i + 1;
      }
      return Ok(None);
    }
  }

  /** A package with a database entry is vulnerable exactly when one of its
      advisories' constraints contains the installed version, and then the
      first such advisory is reported, with its constraint as the impacted
      versions. */
  lemma ReportedAdvisory<V>(lib: Library<V>, db: Database, dependency: Dependency, i: nat)
    requires |db| > 0 && dependency.name in db
    requires i < |db[dependency.name]| && lib.contains(db[dependency.name][i].v, dependency.version)
    requires forall j :: 0 <= j < i ==> !lib.contains(db[dependency.name][j].v, dependency.version)
    ensures Vulnerable(lib, Some(db), dependency) ==
      Ok(Some(Vulnerability(db[dependency.name][i].advisory, db[dependency.name][i].cve, db[dependency.name][i].v)))
  {
    var r := FirstMatch(lib, db[dependency.name], dependency.version);
    var entries := db[dependency.name];
    var k :|
      && 0 <= k < |entries|
      && lib.contains(entries[k].v, dependency.version)
      && (forall j :: 0 <= j < k ==> !lib.contains(entries[j].v, dependency.version))
      && r.value == Vulnerability(entries[k].advisory, entries[k].cve, entries[k].v);
    assert k == i;
  }

  /** Advisories about other packages never matter. */
  lemma OtherPackagesIrrelevant<V>(lib: Library<V>, db: Database, name: string, entries: seq<Entry>, dependency: Dependency)
    requires name != dependency.name && |db| > 0
    ensures Vulnerable(lib, Some(db[name := entries]), dependency) == Vulnerable(lib, Some(db), dependency)
  {
    assert dependency.name in db[name := entries] <==> dependency.name in db;
  }
}
